/** What a client asks of a session, and the packet it asks with. */
module Requests {
  import opened Wire

  datatype Request =
    | Connect(name: Bytes)
    | Message(text: Bytes)
    | Broadcast(text: Bytes)
    | ListAudios
    | Download(file: Bytes)
    | Exit(name: Bytes)

  function RequestPacket(r: Request): (p: Packet)
    ensures WellFormed(p)
  {
    match r
    case Connect(name) => Create(T_CONNECT, H_NAME, name)
    case Message(text) => Create(T_MSG, H_MSG, text)
    case Broadcast(text) => Create(T_BROADCAST, H_BROADCAST, text)
    case ListAudios => Packet(T_SHOWAUDIOS, H_SHOWAUDIOS, [])
    case Download(file) => Create(T_DOWNLOAD, H_AUDREQ, file)
    case Exit(name) => Create(T_EXIT, H_VOID, name)
  }

  /** How many connect requests a session would read from a stream, up to an exit request. */
  ghost function ConnectRequests(stream: Bytes): nat
    decreases |stream|
  {
    if Read(stream).Blocked? then 0
    else
      ReadIsInverse(stream);
      var rest := ConnectRequests(Read(stream).rest);
      if Read(stream).Skipped? then rest
      else if Read(stream).packet.kind == T_EXIT then 0
      else if Read(stream).packet.kind == T_CONNECT && Read(stream).packet.header == H_NAME then 1 + rest
      else rest
  }

  /** Whatever arrives later, the connect requests that have arrived stay. */
  lemma {:induction false} ConnectRequestsGrow(stream: Bytes, more: Bytes)
    ensures ConnectRequests(stream) <= ConnectRequests(stream + more)
    decreases |stream|
  {
    hide Read;
    if !Read(stream).Blocked? {
      ReadIsInverse(stream);
      ReadIsStable(stream, more);
      ConnectRequestsGrow(Read(stream).rest, more);
    }
  }

  lemma ConnectRequestsBehindNoise(b: byte, rest: Bytes)
    requires !KnownKind(b)
    ensures ConnectRequests([b] + rest) == ConnectRequests(rest)
  {
    ReadToken(Noise(b), rest);
  }

  lemma ConnectRequestsBehindRequest(r: Request, rest: Bytes)
    ensures var stream := Encode(RequestPacket(r)) + rest;
            ConnectRequests(stream) == (if r.Connect? then 1 else 0) + if r.Exit? then 0 else ConnectRequests(rest)
  {
    hide Encode, Read;
    ReadUndoesEncode(RequestPacket(r), rest);
  }

  /** The six requests as they go over the wire: type, header, length with the low byte first, text. */
  lemma RequestsOnTheWire()
    ensures Encode(RequestPacket(Connect(Ascii("mia")))) == [1] + Ascii("[TR_NAME]") + [3, 0] + Ascii("mia")
    ensures Encode(RequestPacket(Message(Ascii("hi")))) == [2] + Ascii("[MSG]") + [2, 0] + Ascii("hi")
    ensures Encode(RequestPacket(Broadcast(Ascii("hi")))) == [3] + Ascii("[BROADCAST]") + [2, 0] + Ascii("hi")
    ensures Encode(RequestPacket(ListAudios)) == [4] + Ascii("[SHOW_AUDIOS]") + [0, 0] + []
    ensures Encode(RequestPacket(Download(Ascii("a.mp3")))) == [5] + Ascii("[AUDIO_RQST]") + [5, 0] + Ascii("a.mp3")
    ensures Encode(RequestPacket(Exit(Ascii("mia")))) == [6] + Ascii("[]") + [3, 0] + Ascii("mia")
    ensures LengthField(258) == [2, 1]
  {
    hide Ascii, Create;
    TextIs("mia", 3);
    TextIs("hi", 2);
    TextIs("a.mp3", 5);
    ShortDataIsKept(T_CONNECT, H_NAME, Ascii("mia"));
    ShortDataIsKept(T_MSG, H_MSG, Ascii("hi"));
    ShortDataIsKept(T_BROADCAST, H_BROADCAST, Ascii("hi"));
    ShortDataIsKept(T_DOWNLOAD, H_AUDREQ, Ascii("a.mp3"));
    ShortDataIsKept(T_EXIT, H_VOID, Ascii("mia"));
    assert LengthField(0) == [0, 0] && LengthField(2) == [2, 0] && LengthField(3) == [3, 0] && LengthField(5) == [5, 0];
  }

}
