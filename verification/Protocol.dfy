/** One connection between a client and its session, as a state machine over the steps of the two programs:
    the client of src/client.c asks and reads answers, the session of src/dedicatedServer.c reads and answers,
    and the bytes under way in each direction are a queue. */
module Protocol {
  import opened Wire
  import opened Wrappers
  import opened Requests
  import opened FileTransfer

  /** What is fixed during a run: the name the session answers with, and the digest program. */
  datatype World = World(name: Bytes, md5: Bytes -> Bytes)

  ghost predicate ValidWorld(w: World) {
    IsDigest(w.md5)
  }

  /** What the session notes when it accepts a request, and what the client notes when it is answered. */
  datatype Event =
    | Entered(name: Bytes)
    | Printed(kind: byte, text: Bytes)
    | Listed(listing: Bytes)
    | Offered(file: Bytes, content: Bytes)
    | Missing(file: Bytes)
    | Left
    | Acknowledged(request: Request, reply: Packet)
    | Refused(file: Bytes)
    | Downloaded(file: Bytes, content: Bytes, outcome: Outcome)

  // ----- the session

  /** The branches of DSERVER_threadFunc: what the session makes of a packet, nothing for a packet that no
      branch answers. `stored` is the file of the requested name, if it exists; `listing` is the directory. */
  function React(p: Packet, stored: Option<Bytes>, listing: Bytes): Option<Event> {
    if p.kind == T_CONNECT then
      if p.header == H_NAME then Some(Entered(p.data)) else None
    else if p.kind == T_MSG || p.kind == T_BROADCAST then
      Some(Printed(p.kind, p.data))
    else if p.kind == T_EXIT then
      Some(Left)
    else if p.kind == T_DOWNLOAD then
      if p.header != H_AUDREQ then None
      else if stored.Some? then Some(Offered(p.data, stored.value)) else Some(Missing(p.data))
    else if p.kind == T_SHOWAUDIOS then
      if p.header == H_SHOWAUDIOS then Some(Listed(listing)) else None
    else None
  }

  /** The one-packet answers. An offered file is answered by a transfer instead. */
  function ReplyTo(w: World, e: Event): (p: Packet)
    ensures |p.data| < LENGTH_LIMIT
  {
    match e
    case Entered(_) => Create(T_CONNECT, H_CONOK, w.name)
    case Printed(kind, _) => Packet(kind, H_MSGOK, [])
    case Listed(listing) => Create(T_SHOWAUDIOS, H_LISTAUDIOS, listing)
    case Missing(_) => Packet(T_DOWNLOAD, H_AUDKO, [])
    case _ => Packet(T_EXIT, H_CONOK, [])
  }

  datatype Session =
    | Serving
    | Sending(content: Bytes, left: Bytes)  // inside the fragment loop
    | Finishing(content: Bytes)             // after it, before the digest
    | Ended

  // ----- the client

  datatype ClientPhase =
    | Unconnected
    | Idle
    | Waiting(request: Request)
    | Receiving(file: Bytes, got: Bytes, pending: Packet)  // inside the reassembly loop
    | Closed

  // ----- the connection

  /** `up` runs from client to session, `down` the other way; the log holds what both noted. */
  datatype State = State(client: ClientPhase, session: Session, up: Bytes, down: Bytes, log: seq<Event>)

  const INITIAL: State := State(Unconnected, Serving, [], [], [])

  datatype Action =
    | Probe
    | Ask(request: Request)
    | SessionRead(stored: Option<Bytes>, listing: Bytes)
    | SendFragment
    | SendDigest
    | ClientRead

  function Step(w: World, s: State, a: Action): Option<State> {
    match a
    case Probe => if s.client.Idle? then Some(s.(up := s.up + [PROBE])) else None
    case Ask(r) =>
      if (s.client.Unconnected? && r.Connect?) || (s.client.Idle? && !r.Connect?)
      then Some(s.(client := Waiting(r), up := s.up + Encode(RequestPacket(r)))) else None
    case SessionRead(stored, listing) =>
      if !s.session.Serving? then None
      else
        (match Read(s.up)
         case Blocked => None
         case Skipped(_, rest) => Some(s.(up := rest))
         case Got(p, rest) => Some(Served(w, s.(up := rest), React(p, stored, listing))))
    case SendFragment =>
      if !s.session.Sending? then None
      else
        var content, left := s.session.content, s.session.left;
        if |left| < FRAGMENT_SIZE
        then Some(s.(session := Finishing(content), down := s.down + Encode(Fragment(left))))
        else Some(s.(session := Sending(content, left[FRAGMENT_SIZE..]),
                     down := s.down + Encode(Fragment(left[..FRAGMENT_SIZE]))))
    case SendDigest =>
      if !s.session.Finishing? then None
      else Some(s.(session := Serving, down := s.down + Encode(EndOfFile(w.md5(s.session.content)))))
    case ClientRead =>
      match Read(s.down)
      case Got(p, rest) => Heard(w, s.(down := rest), p)
      case _ => None
  }

  function Served(w: World, s: State, noted: Option<Event>): State {
    match noted
    case None => s
    case Some(Offered(file, content)) => s.(session := Sending(content, content), log := s.log + [noted.value])
    case Some(e) =>
      s.(session := if e.Left? then Ended else Serving, down := s.down + Encode(ReplyTo(w, e)), log := s.log + [e])
  }

  /** What the client does with a packet it reads while it waits or receives. */
  function Heard(w: World, s: State, p: Packet): Option<State> {
    match s.client
    case Waiting(Download(file)) =>
      if p.header == H_AUDKO then Some(s.(client := Idle, log := s.log + [Refused(file)]))
      else if p.header == H_AUDRESP then Some(s.(client := Receiving(file, [], p)))
      else Some(s.(client := Idle, log := s.log + [Acknowledged(Download(file), p)]))
    case Waiting(r) =>
      Some(s.(client := if r.Exit? then Closed else Idle, log := s.log + [Acknowledged(r, p)]))
    case Receiving(file, got, pending) =>
      var stored := got + pending.data;
      if p.header == H_AUDEOF
      then Some(s.(client := Idle, log := s.log + [Downloaded(file, stored, Compared(w, p.data, stored))]))
      else Some(s.(client := Receiving(file, stored, p)))
    case _ => None
  }

  function Compared(w: World, digest: Bytes, content: Bytes): Outcome {
    if |digest| >= DIGEST_SIZE && digest[..DIGEST_SIZE] == w.md5(content) then Saved else Corrupted
  }

  // ----- what every run keeps

  /** The session's note on a request. */
  predicate Notes(e: Event, r: Request) {
    var data := RequestPacket(r).data;
    match r
    case Connect(_) => e == Entered(data)
    case Message(_) => e == Printed(T_MSG, data)
    case Broadcast(_) => e == Printed(T_BROADCAST, data)
    case ListAudios => e.Listed?
    case Download(_) => (e.Offered? || e.Missing?) && e.file == data
    case Exit(_) => e.Left?
  }

  /** The client's note is the answer to the session's note: the packet the session wrote, or the file itself. */
  predicate AnsweredBy(w: World, e: Event, f: Event) {
    match f
    case Acknowledged(r, p) => Notes(e, r) && !r.Download? && p == ReplyTo(w, e)
    case Refused(file) => Notes(e, Download(file)) && e.Missing?
    case Downloaded(file, content, outcome) =>
      Notes(e, Download(file)) && e.Offered? && content == e.content && outcome == Saved
    case _ => false
  }

  predicate BySession(e: Event) {
    e.Entered? || e.Printed? || e.Listed? || e.Offered? || e.Missing? || e.Left?
  }

  /** Notes come in pairs, the session's and then the client's; the first pair, and no other, is the connection. */
  ghost predicate Paired(w: World, log: seq<Event>) {
    forall i :: 0 <= i < |log| ==>
      && (i % 2 == 1 ==> AnsweredBy(w, log[i - 1], log[i]))
      && (i % 2 == 0 ==> BySession(log[i]) && (log[i].Entered? <==> i == 0))
  }

  function WithoutProbes(s: Bytes): Bytes {
    if s != [] && s[0] == PROBE then WithoutProbes(s[1..]) else s
  }

  /** What the session will still write for the file it is sending. */
  ghost function Outstanding(w: World, session: Session): Bytes {
    match session
    case Sending(content, left) => EncodeAll(FilePackets(left, w.md5(content)))
    case Finishing(content) => Encode(EndOfFile(w.md5(content)))
    case _ => []
  }

  ghost predicate Quiet(s: State) {
    s.session.Serving? && s.down == [] && WithoutProbes(s.up) == [] && |s.log| % 2 == 0
  }

  /** The request is on its way, behind any probes. */
  ghost predicate Requested(s: State, r: Request) {
    && s.session.Serving? && s.down == [] && |s.log| % 2 == 0
    && WithoutProbes(s.up) == Encode(RequestPacket(r))
  }

  /** The session has noted the request and its one-packet answer is on its way. */
  ghost predicate Replied(w: World, s: State, r: Request) {
    && s.up == [] && |s.log| % 2 == 1
    && var e := s.log[|s.log| - 1];
       && Notes(e, r) && !e.Offered? && s.session == (if e.Left? then Ended else Serving)
       && s.down == Encode(ReplyTo(w, e))
  }

  /** The session has offered the file and is sending it, or has sent all of it. */
  ghost predicate Offering(w: World, s: State, file: Bytes) {
    && s.up == [] && |s.log| % 2 == 1 && !s.session.Ended?
    && var e := s.log[|s.log| - 1];
       && Notes(e, Download(file)) && e.Offered?
       && (s.session.Sending? || s.session.Finishing? ==> s.session.content == e.content)
  }

  ghost predicate Lockstep(w: World, s: State) {
    && Paired(w, s.log)
    && match s.client
       case Unconnected => s == INITIAL
       case Idle => Quiet(s) && s.log != []
       case Closed => s.session.Ended? && s.up == [] && s.down == [] && |s.log| % 2 == 0
       case Waiting(r) =>
         && (r.Connect? <==> |s.log| <= 1)
         && (Requested(s, r) || Replied(w, s, r)
             || (r.Download? && Offering(w, s, r.file)
                 && var content := s.log[|s.log| - 1].content;
                    s.down + Outstanding(w, s.session) == EncodeAll(FilePackets(content, w.md5(content)))))
       case Receiving(file, got, pending) =>
         && |s.log| > 1 && Offering(w, s, file)
         && var content := s.log[|s.log| - 1].content;
            var a := Assemble(pending, s.down + Outstanding(w, s.session));
            a.Done? && got + a.file == content && a.digest == w.md5(content) && a.rest == []
  }

  // ----- every step keeps it

  lemma {:induction false} ProbesInFront(s: Bytes, t: Bytes)
    requires WithoutProbes(s) == []
    ensures WithoutProbes(s + t) == WithoutProbes(t)
  {
    if s == [] {
      assert s + t == t;
    } else {
      assert (s + t)[1..] == s[1..] + t;
      ProbesInFront(s[1..], t);
    }
  }

  lemma NoProbeInRequest(r: Request)
    ensures WithoutProbes(Encode(RequestPacket(r))) == Encode(RequestPacket(r)) != []
  {
    assert KnownKind(RequestPacket(r).kind);
  }

  /** The session notes every request of the client, and notes a connection only for a connect request. */
  lemma EveryRequestIsNoted(r: Request, stored: Option<Bytes>, listing: Bytes)
    ensures var e := React(RequestPacket(r), stored, listing);
            e.Some? && Notes(e.value, r) && BySession(e.value) && (e.value.Entered? <==> r.Connect?)
  {
  }

  /** Which packets the session answers at all; it passes over every other one. */
  lemma ReactsIff(p: Packet, stored: Option<Bytes>, listing: Bytes)
    ensures React(p, stored, listing).Some? <==>
            || p.kind in {T_MSG, T_BROADCAST, T_EXIT}
            || (p.kind == T_CONNECT && p.header == H_NAME)
            || (p.kind == T_DOWNLOAD && p.header == H_AUDREQ)
            || (p.kind == T_SHOWAUDIOS && p.header == H_SHOWAUDIOS)
  {
  }

  lemma RepliesAreWellFormed(w: World, e: Event, r: Request)
    requires Notes(e, r)
    ensures WellFormed(ReplyTo(w, e))
  {
    KnownHeaderIsWellFormed(H_CONOK);
    KnownHeaderIsWellFormed(H_MSGOK);
    KnownHeaderIsWellFormed(H_LISTAUDIOS);
    KnownHeaderIsWellFormed(H_AUDKO);
  }

  /** The answers as they go over the wire. */
  lemma RepliesOnTheWire(w: World, text: Bytes)
    ensures w.name == Ascii("mia") ==>
              Encode(ReplyTo(w, Entered(text))) == [1] + Ascii("[CONOK]") + [3, 0] + Ascii("mia")
    ensures Encode(ReplyTo(w, Printed(T_MSG, text))) == [2] + Ascii("[MSGOK]") + [0, 0] + []
    ensures Encode(ReplyTo(w, Printed(T_BROADCAST, text))) == [3] + Ascii("[MSGOK]") + [0, 0] + []
    ensures Encode(ReplyTo(w, Listed(Ascii("a.mp3")))) == [4] + Ascii("[LIST_AUDIOS]") + [5, 0] + Ascii("a.mp3")
    ensures Encode(ReplyTo(w, Missing(text))) == [5] + Ascii("[AUDIO_KO]") + [0, 0] + []
    ensures Encode(ReplyTo(w, Left)) == [6] + Ascii("[CONOK]") + [0, 0] + []
  {
    hide Ascii, Create;
    TextIs("mia", 3);
    TextIs("a.mp3", 5);
    ShortDataIsKept(T_CONNECT, H_CONOK, Ascii("mia"));
    ShortDataIsKept(T_SHOWAUDIOS, H_LISTAUDIOS, Ascii("a.mp3"));
    assert LengthField(0) == [0, 0] && LengthField(3) == [3, 0] && LengthField(5) == [5, 0];
  }

  lemma OnePacket(p: Packet)
    requires WellFormed(p)
    ensures Read(Encode(p)) == Got(p, [])
  {
    ReadUndoesEncode(p, []);
    assert Encode(p) + [] == Encode(p);
  }

  lemma PairedGrows(w: World, log: seq<Event>, e: Event)
    requires Paired(w, log)
    requires |log| % 2 == 0 ==> BySession(e) && (e.Entered? <==> |log| == 0)
    requires |log| % 2 == 1 ==> AnsweredBy(w, log[|log| - 1], e)
    ensures Paired(w, log + [e])
  {
    hide AnsweredBy;
    var grown := log + [e];
    forall i | 0 <= i < |grown|
      ensures i % 2 == 1 ==> AnsweredBy(w, grown[i - 1], grown[i])
      ensures i % 2 == 0 ==> BySession(grown[i]) && (grown[i].Entered? <==> i == 0)
    {
      if i < |log| {
        assert grown[i] == log[i] && (i > 0 ==> grown[i - 1] == log[i - 1]);
      }
    }
  }

  lemma ProbeKeeps(w: World, s: State)
    requires Lockstep(w, s) && Step(w, s, Probe).Some?
    ensures Lockstep(w, Step(w, s, Probe).value)
  {
    ProbesInFront(s.up, [PROBE]);
  }

  lemma AskKeeps(w: World, s: State, r: Request)
    requires Lockstep(w, s) && Step(w, s, Ask(r)).Some?
    ensures Lockstep(w, Step(w, s, Ask(r)).value)
  {
    hide Encode, RequestPacket, Paired;
    ProbesInFront(s.up, Encode(RequestPacket(r)));
    NoProbeInRequest(r);
  }

  /** What is at the front of the request queue: a probe, or the whole request and nothing after it. */
  lemma FrontOfQueue(s: Bytes, r: Request)
    ensures s != [] && s[0] == PROBE ==> Read(s) == Skipped(PROBE, s[1..]) && WithoutProbes(s[1..]) == WithoutProbes(s)
    ensures WithoutProbes(s) == Encode(RequestPacket(r)) && s != [] && s[0] != PROBE ==>
              Read(s) == Got(RequestPacket(r), [])
    ensures WithoutProbes(s) == [] && s != [] ==> s[0] == PROBE
    ensures WithoutProbes(s) == Encode(RequestPacket(r)) ==> s != []
  {
    hide Encode, RequestPacket;
    NoProbeInRequest(r);
    OnePacket(RequestPacket(r));
    assert !KnownKind(PROBE);
    if s != [] && s[0] != PROBE {
      assert WithoutProbes(s) == s;
    }
  }

  lemma SessionReadKeeps(w: World, s: State, stored: Option<Bytes>, listing: Bytes)
    requires Lockstep(w, s) && Step(w, s, SessionRead(stored, listing)).Some?
    ensures Lockstep(w, Step(w, s, SessionRead(stored, listing)).value)
  {
    hide Encode, RequestPacket, React, Paired, Notes, FilePackets, EncodeAll, ReplyTo;
    match s.client
    case Waiting(r) =>
      FrontOfQueue(s.up, r);
      if Requested(s, r) && s.up[0] != PROBE {
        EveryRequestIsNoted(r, stored, listing);
        var e := React(RequestPacket(r), stored, listing).value;
        PairedGrows(w, s.log, e);
        RequestedIsAnswered(w, s, r, e);
      }
    case _ => FrontOfQueue(s.up, ListAudios);
  }

  lemma RequestedIsAnswered(w: World, s: State, r: Request, e: Event)
    requires Lockstep(w, s) && s.client == Waiting(r) && Requested(s, r)
    requires Notes(e, r) && Paired(w, s.log + [e])
    ensures Lockstep(w, Served(w, s.(up := []), Some(e)))
  {
    hide Encode, RequestPacket, Paired, FilePackets, EncodeAll, ReplyTo;
    var t := Served(w, s.(up := []), Some(e));
    assert t.log == s.log + [e];
    if e.Offered? {
      assert Outstanding(w, t.session) == EncodeAll(FilePackets(e.content, w.md5(e.content)));
      assert t.down + Outstanding(w, t.session) == Outstanding(w, t.session);
    } else {
      assert t.down == Encode(ReplyTo(w, e));
    }
  }

  /** Sending moves bytes from what is outstanding to the queue, and changes nothing else. */
  lemma SendingMovesBytes(w: World, s: State, a: Action)
    requires (a.SendFragment? || a.SendDigest?) && Step(w, s, a).Some?
    ensures var t := Step(w, s, a).value;
            && t.down + Outstanding(w, t.session) == s.down + Outstanding(w, s.session)
            && t.client == s.client && t.up == s.up && t.log == s.log
            && (s.session.Sending? || s.session.Finishing?) && !t.session.Ended?
            && (t.session.Sending? || t.session.Finishing? ==> t.session.content == s.session.content)
  {
    hide Encode, FilePackets, EncodeAll, Create;
    var t := Step(w, s, a).value;
    var digest := w.md5(s.session.content);
    if a.SendFragment? {
      var left := s.session.left;
      var buff := if |left| < FRAGMENT_SIZE then left else left[..FRAGMENT_SIZE];
      UnsentStep(left, digest, buff);
      assert t.down == s.down + Encode(Fragment(buff));
      assert Outstanding(w, t.session) == Unsent(left[|buff|..], digest, |buff|);
    }
  }

  lemma SendingKeeps(w: World, s: State, a: Action)
    requires (a.SendFragment? || a.SendDigest?) && Lockstep(w, s) && Step(w, s, a).Some?
    ensures Lockstep(w, Step(w, s, a).value)
  {
    hide Encode, Step, Paired, FilePackets, EncodeAll, Outstanding, Assemble, Notes;
    SendingMovesBytes(w, s, a);
  }

  /** The client's note on the one-packet answer to r. */
  function NoteOf(r: Request, p: Packet): Event {
    if r.Download? then Refused(r.file) else Acknowledged(r, p)
  }

  lemma ReplyIsUnderstood(w: World, s: State, r: Request, e: Event)
    requires s.client == Waiting(r) && Notes(e, r) && !e.Offered?
    ensures var f := NoteOf(r, ReplyTo(w, e));
            && AnsweredBy(w, e, f)
            && Heard(w, s, ReplyTo(w, e)) == Some(s.(client := if r.Exit? then Closed else Idle, log := s.log + [f]))
  {
    hide RequestPacket, Create, Ascii;
  }

  lemma ReplyIsHeard(w: World, s: State, r: Request)
    requires Lockstep(w, s) && s.client == Waiting(r) && Replied(w, s, r) && Step(w, s, ClientRead).Some?
    ensures Lockstep(w, Step(w, s, ClientRead).value)
  {
    hide Encode, RequestPacket, Paired, ReplyTo, Notes, AnsweredBy, Heard, BySession, Requested, Offering, Outstanding,
      EncodeAll, FilePackets, Assemble, Read;
    var e := s.log[|s.log| - 1];
    RepliesAreWellFormed(w, e, r);
    OnePacket(ReplyTo(w, e));
    ReplyIsUnderstood(w, s.(down := []), r, e);
    ExitLeaves(e, r);
    PairedGrows(w, s.log, NoteOf(r, ReplyTo(w, e)));
  }

  lemma ExitLeaves(e: Event, r: Request)
    requires Notes(e, r)
    ensures e.Left? <==> r.Exit?
  {
  }

  /** Reading a packet while more is still to come gives the same packet as when all has come. */
  lemma ReadBeforeTheRest(down: Bytes, more: Bytes)
    requires Read(down).Got?
    ensures Read(down + more) == Got(Read(down).packet, Read(down).rest + more)
  {
    ReadIsStable(down, more);
  }

  lemma TransferBegins(w: World, s: State, file: Bytes)
    requires ValidWorld(w) && Lockstep(w, s) && s.client == Waiting(Download(file)) && Offering(w, s, file)
    requires s.down + Outstanding(w, s.session)
             == EncodeAll(FilePackets(s.log[|s.log| - 1].content, w.md5(s.log[|s.log| - 1].content)))
    requires Step(w, s, ClientRead).Some?
    ensures Lockstep(w, Step(w, s, ClientRead).value)
  {
    hide Encode, Paired, Outstanding, RequestPacket, Assemble, Create, Ascii, Read, Notes;
    var content := s.log[|s.log| - 1].content;
    var digest := w.md5(content);
    var ps := FilePackets(content, digest);
    var more := Outstanding(w, s.session);
    ReadBeforeTheRest(s.down, more);
    ReadUndoesEncode(ps[0], EncodeAll(ps[1..]));
    FileArrivesWhole(content, digest, []);
    DownloadHeadersDiffer();
    assert EncodeAll(ps[1..]) + [] == EncodeAll(ps[1..]);
  }

  lemma TransferEnds(w: World, s: State, content: Bytes, p: Packet)
    requires ValidWorld(w) && s.client.Receiving? && p.header == H_AUDEOF
    requires s.client.got + s.client.pending.data == content && p.data == w.md5(content)
    ensures Heard(w, s, p) == Some(s.(client := Idle, log := s.log + [Downloaded(s.client.file, content, Saved)]))
  {
    assert p.data[..DIGEST_SIZE] == p.data;
  }

  lemma TransferGoesOn(w: World, s: State)
    requires ValidWorld(w) && Lockstep(w, s) && s.client.Receiving? && Step(w, s, ClientRead).Some?
    ensures Lockstep(w, Step(w, s, ClientRead).value)
  {
    hide Encode, Paired, RequestPacket, FilePackets, Create, Ascii, Notes, Outstanding, Read;
    var e := s.log[|s.log| - 1];
    var got, pending := s.client.got, s.client.pending;
    var more := Outstanding(w, s.session);
    ReadBeforeTheRest(s.down, more);
    var p, rest := Read(s.down).packet, Read(s.down).rest;
    var next := AssembleFrom(p, rest + more);
    assert next.Done? && got + (pending.data + next.file) == got + pending.data + next.file;
    if p.header == H_AUDEOF {
      assert next.file == [] && got + pending.data + [] == got + pending.data;
      TransferEnds(w, s.(down := rest), e.content, p);
      assert rest == [] && more == [];
      SomethingOutstanding(w, s.session);
      PairedGrows(w, s.log, Downloaded(s.client.file, e.content, Saved));
    }
  }

  lemma SomethingOutstanding(w: World, session: Session)
    ensures session.Sending? || session.Finishing? ==> Outstanding(w, session) != []
  {
    if session.Sending? {
      var ps := FilePackets(session.left, w.md5(session.content));
      assert EncodeAll(ps) == Encode(ps[0]) + EncodeAll(ps[1..]);
    }
  }

  /** No step of either side, in any order, leaves lockstep. */
  lemma StepKeepsLockstep(w: World, s: State, a: Action)
    requires ValidWorld(w) && Lockstep(w, s) && Step(w, s, a).Some?
    ensures Lockstep(w, Step(w, s, a).value)
  {
    match a
    case Probe => ProbeKeeps(w, s);
    case Ask(r) => AskKeeps(w, s, r);
    case SessionRead(stored, listing) => SessionReadKeeps(w, s, stored, listing);
    case SendFragment => SendingKeeps(w, s, a);
    case SendDigest => SendingKeeps(w, s, a);
    case ClientRead => ClientReadKeeps(w, s);
  }

  lemma ClientReadKeeps(w: World, s: State)
    requires ValidWorld(w) && Lockstep(w, s) && Step(w, s, ClientRead).Some?
    ensures Lockstep(w, Step(w, s, ClientRead).value)
  {
    hide Encode, RequestPacket, Paired, FilePackets, EncodeAll, Outstanding, Notes, ReplyTo, Assemble;
    match s.client
    case Waiting(r) =>
      if Replied(w, s, r) {
        ReplyIsHeard(w, s, r);
      } else {
        assert s.down != [] && !Requested(s, r);
        TransferBegins(w, s, r.file);
      }
    case Receiving(_, _, _) => TransferGoesOn(w, s);
    case _ =>
  }

  // ----- whole runs

  /** A run is any sequence of steps that could each be taken. */
  function Run(w: World, s: State, actions: seq<Action>): Option<State>
    decreases |actions|
  {
    if actions == [] then Some(s)
    else
      match Step(w, s, actions[0])
      case None => None
      case Some(t) => Run(w, t, actions[1..])
  }

  lemma {:induction false} RunKeepsLockstep(w: World, s: State, actions: seq<Action>)
    requires ValidWorld(w) && Lockstep(w, s) && Run(w, s, actions).Some?
    ensures Lockstep(w, Run(w, s, actions).value)
    decreases |actions|
  {
    if actions != [] {
      StepKeepsLockstep(w, s, actions[0]);
      RunKeepsLockstep(w, Step(w, s, actions[0]).value, actions[1..]);
    }
  }

  /** Whatever the two sides have done since the connection was made: an idle client has no answer under way
      and at most probes; every note of the client answers the session's note before it, in particular every
      download is the offered file, intact, each acknowledgement is the reply to the session's note of that very
      request, and each refusal follows the note that this file is missing; and the session has noted one
      connection at most. */
  lemma EveryRunIsFaithful(w: World, actions: seq<Action>, i: nat)
    requires ValidWorld(w) && Run(w, INITIAL, actions).Some?
    ensures var s := Run(w, INITIAL, actions).value;
            && (s.client.Idle? ==> s.down == [] && WithoutProbes(s.up) == [] && s.session.Serving?)
            && (i < |s.log| && s.log[i].Downloaded? ==>
                  && i > 0
                  && s.log[i - 1] == Offered(Create(T_DOWNLOAD, H_AUDREQ, s.log[i].file).data, s.log[i].content)
                  && s.log[i].outcome == Saved)
            && (i < |s.log| && s.log[i].Acknowledged? ==>
                  && i > 0 && Notes(s.log[i - 1], s.log[i].request)
                  && s.log[i].reply.kind == RequestPacket(s.log[i].request).kind
                  && s.log[i].reply == ReplyTo(w, s.log[i - 1]))
            && (i < |s.log| && s.log[i].Refused? ==>
                  && i > 0 && s.log[i - 1].Missing? && Notes(s.log[i - 1], Download(s.log[i].file)))
            && (i < |s.log| && s.log[i].Entered? ==> i == 0)
  {
    InitialLockstep(w);
    RunKeepsLockstep(w, INITIAL, actions);
    var s := Run(w, INITIAL, actions).value;
    if i < |s.log| {
      NoteIsFaithful(w, s.log, i);
    }
  }

  lemma InitialLockstep(w: World)
    ensures Lockstep(w, INITIAL)
  {
  }

  lemma NoteIsFaithful(w: World, log: seq<Event>, i: nat)
    requires Paired(w, log) && i < |log|
    ensures log[i].Downloaded? ==>
              && i > 0 && log[i - 1] == Offered(Create(T_DOWNLOAD, H_AUDREQ, log[i].file).data, log[i].content)
              && log[i].outcome == Saved
    ensures log[i].Acknowledged? ==>
              && i > 0 && Notes(log[i - 1], log[i].request)
              && log[i].reply.kind == RequestPacket(log[i].request).kind
              && log[i].reply == ReplyTo(w, log[i - 1])
    ensures log[i].Refused? ==> i > 0 && log[i - 1].Missing? && Notes(log[i - 1], Download(log[i].file))
    ensures log[i].Entered? ==> i == 0
  {
    hide Ascii;
    if i % 2 == 1 {
      assert AnsweredBy(w, log[i - 1], log[i]);
    }
  }

  // ----- nothing is made up

  /** What a note of the session says of the disk is what it found there when it read the request. */
  ghost predicate FoundBy(e: Event, a: Action) {
    && a.SessionRead?
    && (e.Offered? ==> a.stored == Some(e.content))
    && (e.Missing? ==> a.stored == None)
    && (e.Listed? ==> a.listing == e.listing)
  }

  lemma StepNotesWhatIsThere(w: World, s: State, a: Action)
    requires Step(w, s, a).Some?
    ensures var t := Step(w, s, a).value;
            s.log <= t.log && forall i :: |s.log| <= i < |t.log| && BySession(t.log[i]) ==> FoundBy(t.log[i], a)
  {
    hide Encode, Read, ReplyTo, RequestPacket;
  }

  lemma {:induction false} RunNotesWhatIsThere(w: World, s: State, actions: seq<Action>, i: nat)
    requires Run(w, s, actions).Some?
    ensures var t := Run(w, s, actions).value;
            && s.log <= t.log
            && (|s.log| <= i < |t.log| && BySession(t.log[i]) ==> exists a :: a in actions && FoundBy(t.log[i], a))
    decreases |actions|
  {
    hide Step, FoundBy, BySession;
    if actions != [] {
      var next := Step(w, s, actions[0]).value;
      StepNotesWhatIsThere(w, s, actions[0]);
      RunNotesWhatIsThere(w, next, actions[1..], i);
      assert actions[0] in actions && forall a :: a in actions[1..] ==> a in actions;
    }
  }

  /** Over every run the session notes the text, the name or the file name that the client meant, if it was short
      enough to be sent whole. */
  lemma EveryTextArrives(w: World, actions: seq<Action>, i: nat)
    requires ValidWorld(w) && Run(w, INITIAL, actions).Some?
    requires i < |Run(w, INITIAL, actions).value.log|
    ensures var log := Run(w, INITIAL, actions).value.log;
            var f := log[i];
            && (f.Acknowledged? || f.Refused? || f.Downloaded? ==> i > 0)
            && (f.Acknowledged? && f.request.Connect? && |f.request.name| < LENGTH_LIMIT ==>
                  log[i - 1] == Entered(f.request.name))
            && (f.Acknowledged? && f.request.Message? && |f.request.text| < LENGTH_LIMIT ==>
                  log[i - 1] == Printed(T_MSG, f.request.text))
            && (f.Acknowledged? && f.request.Broadcast? && |f.request.text| < LENGTH_LIMIT ==>
                  log[i - 1] == Printed(T_BROADCAST, f.request.text))
            && (f.Acknowledged? && f.request.Exit? ==> log[i - 1] == Left)
            && (f.Refused? && |f.file| < LENGTH_LIMIT ==> log[i - 1] == Missing(f.file))
            && (f.Downloaded? && |f.file| < LENGTH_LIMIT ==> log[i - 1] == Offered(f.file, f.content))
  {
    hide Run, Ascii, ReplyTo;
    EveryRunIsFaithful(w, actions, i);
  }

  /** Over every run a download is a file that the session found when it read a request, a refusal follows a look
      that found none, and the one-packet answers are these. */
  lemma EveryAnswerIsTrue(w: World, actions: seq<Action>, i: nat)
    requires ValidWorld(w) && Run(w, INITIAL, actions).Some?
    requires i < |Run(w, INITIAL, actions).value.log|
    ensures var f := Run(w, INITIAL, actions).value.log[i];
            && (f.Downloaded? ==> exists a :: a in actions && a.SessionRead? && a.stored == Some(f.content))
            && (f.Refused? ==> exists a :: a in actions && a.SessionRead? && a.stored == None)
            && (f.Acknowledged? && f.request.Connect? && |w.name| < LENGTH_LIMIT ==>
                  f.reply == Packet(T_CONNECT, H_CONOK, w.name))
            && (f.Acknowledged? && f.request.Message? ==> f.reply == Packet(T_MSG, H_MSGOK, []))
            && (f.Acknowledged? && f.request.Broadcast? ==> f.reply == Packet(T_BROADCAST, H_MSGOK, []))
            && (f.Acknowledged? && f.request.Exit? ==> f.reply == Packet(T_EXIT, H_CONOK, []))
            && (f.Acknowledged? && f.request.ListAudios? ==>
                  exists a :: a in actions && a.SessionRead?
                              && (|a.listing| < LENGTH_LIMIT ==>
                                    f.reply == Packet(T_SHOWAUDIOS, H_LISTAUDIOS, a.listing)))
  {
    hide Run, Ascii, RequestPacket;
    EveryRunIsFaithful(w, actions, i);
    if i > 0 {
      RunNotesWhatIsThere(w, INITIAL, actions, i - 1);
    }
  }

  // ----- the client of this machine and the download loop

  /** However the queue was filled: reading on from inside the reassembly loop ends with what the loop of the client
      puts together, and with its verdict. */
  lemma {:induction false} ReadingAgrees(w: World, s: State) returns (actions: seq<Action>)
    requires s.client.Receiving? && Assemble(s.client.pending, s.down).Done?
    ensures var a := Assemble(s.client.pending, s.down);
            var intact := |a.digest| >= 32 && a.digest[..32] == w.md5(s.client.got + a.file);
            var note := Downloaded(s.client.file, s.client.got + a.file, if intact then Saved else Corrupted);
            && (forall b :: b in actions ==> b == ClientRead)
            && Run(w, s, actions) == Some(s.(client := Idle, down := a.rest, log := s.log + [note]))
    decreases |s.down|
  {
    hide Read;
    var p, rest := Read(s.down).packet, Read(s.down).rest;
    ReadIsInverse(s.down);
    var t := Step(w, s, ClientRead).value;
    if p.header == H_AUDEOF {
      actions := [ClientRead];
      assert s.client.got + s.client.pending.data + [] == s.client.got + s.client.pending.data;
      assert s.client.pending.data + [] == s.client.pending.data;
    } else {
      var more := ReadingAgrees(w, t);
      actions := [ClientRead] + more;
      assert actions[1..] == more;
      var file := Assemble(p, rest).file;
      assert s.client.got + (s.client.pending.data + file) == (s.client.got + s.client.pending.data) + file;
    }
  }

  // ----- every request is answered

  predicate Busy(s: State) {
    s.client.Waiting? || s.client.Receiving?
  }

  predicate Internal(a: Action) {
    a.SessionRead? || a.SendFragment? || a.SendDigest? || a.ClientRead?
  }

  /** While the client waits or receives, one side can always take a step: nobody waits for the other. */
  lemma NoDeadlock(w: World, s: State, stored: Option<Bytes>, listing: Bytes) returns (a: Action)
    requires ValidWorld(w) && Lockstep(w, s) && Busy(s)
    ensures a in {SessionRead(stored, listing), SendFragment, SendDigest, ClientRead} && Step(w, s, a).Some?
  {
    hide Encode, RequestPacket, Lockstep, Read, Heard, Served, React, Create, WithoutProbes, Fragment;
    if s.session.Sending? {
      a := SendFragment;
    } else if s.session.Finishing? {
      a := SendDigest;
    } else if s.client.Waiting? && Requested(s, s.client.request) {
      FrontOfQueue(s.up, s.client.request);
      a := SessionRead(stored, listing);
    } else {
      AnswerIsReadable(w, s);
      a := ClientRead;
    }
  }

  lemma AnswerIsReadable(w: World, s: State)
    requires ValidWorld(w) && Lockstep(w, s) && Busy(s) && !s.session.Sending? && !s.session.Finishing?
    requires s.client.Waiting? ==> !Requested(s, s.client.request)
    ensures Read(s.down).Got? && Heard(w, s.(down := Read(s.down).rest), Read(s.down).packet).Some?
  {
    hide Encode, RequestPacket, Paired, Notes, ReplyTo, Read;
    assert Outstanding(w, s.session) == [] && s.down + [] == s.down;
    if s.client.Waiting? {
      var r, e := s.client.request, s.log[|s.log| - 1];
      if Replied(w, s, r) {
        RepliesAreWellFormed(w, e, r);
        OnePacket(ReplyTo(w, e));
      } else {
        var ps := FilePackets(e.content, w.md5(e.content));
        ReadUndoesEncode(ps[0], EncodeAll(ps[1..]));
      }
    }
  }

  /** How much sending the session still has to do. */
  function Work(session: Session): nat {
    match session
    case Sending(_, left) => |left| + 2
    case Finishing(_) => 1
    case _ => 0
  }

  lemma InternalStepsRunOut(w: World, s: State, a: Action)
    requires Internal(a) && Step(w, s, a).Some?
    ensures var t := Step(w, s, a).value;
            || |t.up| < |s.up|
            || (t.up == s.up && Work(t.session) < Work(s.session))
            || (t.up == s.up && t.session == s.session && |t.down| < |s.down|)
  {
    hide Encode, React, ReplyTo, Read, RequestPacket, Create;
    ReadIsInverse(s.up);
    ReadIsInverse(s.down);
  }

  /** The request that the client is busy with. */
  function Current(client: ClientPhase): Request
    requires client.Waiting? || client.Receiving?
  {
    if client.Waiting? then client.request else Download(client.file)
  }

  /** The request that a note of the client is about. */
  predicate Concerns(e: Event, r: Request) {
    || (e.Acknowledged? && e.request == r)
    || ((e.Refused? || e.Downloaded?) && r == Download(e.file))
  }

  lemma InternalStepsDoNotAsk(w: World, s: State, a: Action)
    requires Internal(a) && Step(w, s, a).Some? && Busy(s)
    ensures var t := Step(w, s, a).value;
            && s.log <= t.log
            && if Busy(t) then Current(t.client) == Current(s.client)
               else t.log != [] && Concerns(t.log[|t.log| - 1], Current(s.client)) && |s.log| < |t.log|
  {
    hide Encode, React, ReplyTo, Read;
  }

  /** Whatever order the two sides run in, a request that has been sent is answered after finitely many steps,
      and the connection is in lockstep again. At each step any side that can move may be the one that does. */
  method Complete(w: World, start: State, stored: Option<Bytes>, listing: Bytes) returns (s: State)
    requires ValidWorld(w) && Lockstep(w, start) && Busy(start)
    ensures Lockstep(w, s) && !Busy(s)
    ensures start.log < s.log && Concerns(s.log[|s.log| - 1], Current(start.client))
  {
    hide Encode, Step, Lockstep, Concerns;
    s := start;
    while Busy(s)
      invariant Lockstep(w, s) && start.log <= s.log
      invariant if Busy(s) then Current(s.client) == Current(start.client)
                else |start.log| < |s.log| && Concerns(s.log[|s.log| - 1], Current(start.client))
      decreases |s.up|, Work(s.session), |s.down|
    {
      ghost var possible := NoDeadlock(w, s, stored, listing);
      var a :| a in {SessionRead(stored, listing), SendFragment, SendDigest, ClientRead} && Step(w, s, a).Some?;
      StepKeepsLockstep(w, s, a);
      InternalStepsRunOut(w, s, a);
      InternalStepsDoNotAsk(w, s, a);
      s := Step(w, s, a).value;
    }
  }
}
