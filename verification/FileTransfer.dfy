/** The download of one file: the fragment loop of src/dedicatedServer.c and the loop of src/client.c
    that puts the file together again. */
module FileTransfer {
  import opened Wire
  import opened Channels
  import opened Files
  import Text

  const FRAGMENT_SIZE: nat := 8192
  const DIGEST_SIZE: nat := 32

  /** The digest is computed by an external program; all that matters is that it has 32 characters. */
  ghost predicate IsDigest(md5: Bytes -> Bytes) {
    forall content :: |md5(content)| == DIGEST_SIZE
  }

  function Fragment(data: Bytes): Packet {
    Packet(T_DOWNLOAD, H_AUDRESP, data)
  }

  function EndOfFile(digest: Bytes): Packet {
    Create(T_DOWNLOAD, H_AUDEOF, digest)
  }

  lemma EndOfFileCarries(digest: Bytes)
    requires |digest| < LENGTH_LIMIT
    ensures EndOfFile(digest) == Packet(T_DOWNLOAD, H_AUDEOF, digest) && WellFormed(EndOfFile(digest))
  {
    KnownHeaderIsWellFormed(H_AUDEOF);
    CreateKeepsData(T_DOWNLOAD, H_AUDEOF, digest);
  }

  /** The packets of a transfer as they go over the wire. */
  lemma TransferOnTheWire()
    ensures Encode(Fragment(Ascii("hi"))) == [5] + Ascii("[AUDIO_RSPNS]") + [2, 0] + Ascii("hi")
    ensures Encode(EndOfFile(Ascii("hi"))) == [5] + Ascii("[EOF]") + [2, 0] + Ascii("hi")
  {
    hide Ascii, Create;
    TextIs("hi", 2);
    ShortDataIsKept(T_DOWNLOAD, H_AUDEOF, Ascii("hi"));
    assert LengthField(2) == [2, 0];
  }

  /** What the session sends for a file: full fragments until a short one, then the digest. */
  function FilePackets(content: Bytes, digest: Bytes): (ps: seq<Packet>)
    ensures |ps| >= 2
    ensures AllWellFormed(ps)
    decreases |content|
  {
    if |content| < FRAGMENT_SIZE
    then [Fragment(content), EndOfFile(digest)]
    else [Fragment(content[..FRAGMENT_SIZE])] + FilePackets(content[FRAGMENT_SIZE..], digest)
  }

  /** What the client makes of the stream once it has read the packet `first`: everything up to the
      packet with the end-of-file header, that packet's data, and what follows it on the stream. */
  datatype Assembly = Stuck | Done(file: Bytes, digest: Bytes, rest: Bytes)

  function Assemble(first: Packet, s: Bytes): Assembly
    decreases |s|, 0
  {
    match Read(s)
    case Got(p, rest) =>
      ReadIsInverse(s);
      Prepend(first.data, AssembleFrom(p, rest))
    case _ => Stuck
  }

  /** The same at the test of the loop, where `next` has been read but not yet looked at. */
  function AssembleFrom(next: Packet, s: Bytes): Assembly
    decreases |s|, 1
  {
    if next.header == H_AUDEOF then Done([], next.data, s) else Assemble(next, s)
  }

  function Prepend(data: Bytes, a: Assembly): Assembly {
    match a
    case Stuck => Stuck
    case Done(file, digest, rest) => Done(data + file, digest, rest)
  }

  /** The loop's progress: `whole` is `got` followed by what the rest of the stream still yields. */
  ghost predicate Yields(whole: Assembly, got: Bytes, next: Packet, s: Bytes) {
    whole.Done? && whole == Prepend(got, AssembleFrom(next, s))
  }

  lemma AssembleStep(whole: Assembly, got: Bytes, p: Packet, s: Bytes)
    requires whole.Done? && whole == Prepend(got, Assemble(p, s))
    ensures Read(s).Got? && |Read(s).rest| < |s|
    ensures Yields(whole, got + p.data, Read(s).packet, Read(s).rest)
  {
    ReadIsInverse(s);
    var next := AssembleFrom(Read(s).packet, Read(s).rest);
    assert got + (p.data + next.file) == (got + p.data) + next.file;
  }

  /** Packet i of a transfer, said without the loop: i-th slice of the file, then the digest. */
  function PacketAt(content: Bytes, digest: Bytes, i: nat): Packet
    requires i <= |content| / FRAGMENT_SIZE + 1
  {
    var full := |content| / FRAGMENT_SIZE;
    if i < full then Fragment(content[i * FRAGMENT_SIZE..(i + 1) * FRAGMENT_SIZE])
    else if i == full then Fragment(content[full * FRAGMENT_SIZE..])
    else EndOfFile(digest)
  }

  lemma OneFragmentLess(content: Bytes, i: nat)
    requires |content| >= FRAGMENT_SIZE && 1 <= i <= |content| / FRAGMENT_SIZE + 1
    ensures |content[FRAGMENT_SIZE..]| / FRAGMENT_SIZE == |content| / FRAGMENT_SIZE - 1
    ensures forall digest :: PacketAt(content[FRAGMENT_SIZE..], digest, i - 1) == PacketAt(content, digest, i)
  {
    var rest := content[FRAGMENT_SIZE..];
    var full := |content| / FRAGMENT_SIZE;
    assert |rest| / FRAGMENT_SIZE == full - 1;
    if i < full {
      assert rest[(i - 1) * FRAGMENT_SIZE..i * FRAGMENT_SIZE] == content[i * FRAGMENT_SIZE..(i + 1) * FRAGMENT_SIZE];
    } else if i == full {
      assert rest[(full - 1) * FRAGMENT_SIZE..] == content[full * FRAGMENT_SIZE..];
    }
  }

  lemma {:induction false} PacketsAreSlices(content: Bytes, digest: Bytes, i: nat)
    requires i <= |content| / FRAGMENT_SIZE + 1
    ensures |FilePackets(content, digest)| == |content| / FRAGMENT_SIZE + 2
    ensures FilePackets(content, digest)[i] == PacketAt(content, digest, i)
    decreases |content|
  {
    if |content| >= FRAGMENT_SIZE {
      var j := if i == 0 then 1 else i;
      OneFragmentLess(content, j);
      PacketsAreSlices(content[FRAGMENT_SIZE..], digest, j - 1);
    }
  }

  /** The bytes a transfer puts on the wire: 16 more per fragment and 40 for the digest packet. */
  lemma {:induction false} TransferSize(content: Bytes, digest: Bytes)
    requires |digest| == DIGEST_SIZE
    ensures |EncodeAll(FilePackets(content, digest))| == |content| + 16 * (|content| / 8192 + 1) + 40
    decreases |content|
  {
    var ps := FilePackets(content, digest);
    if |content| < FRAGMENT_SIZE {
      assert ps[1..] == [EndOfFile(digest)] && ps[1..][1..] == [];
      EndOfFileCarries(digest);
      assert EncodeAll(ps) == Encode(ps[0]) + (Encode(ps[1]) + EncodeAll([]));
    } else {
      var rest := content[FRAGMENT_SIZE..];
      assert |rest| / FRAGMENT_SIZE == |content| / FRAGMENT_SIZE - 1;
      TransferSize(rest, digest);
      assert ps[1..] == FilePackets(rest, digest);
    }
  }

  /** Whatever the file holds, the client puts together exactly the file that was sent, gets the digest
      that was sent with it, and leaves on the stream exactly what followed the transfer. */
  lemma {:induction false} FileArrivesWhole(content: Bytes, digest: Bytes, tail: Bytes)
    requires |digest| < LENGTH_LIMIT
    ensures var ps := FilePackets(content, digest);
            Assemble(ps[0], EncodeAll(ps[1..]) + tail) == Done(content, digest, tail)
    decreases |content|
  {
    hide Encode, Read, Create, Ascii;
    var ps := FilePackets(content, digest);
    var more := EncodeAll(ps[2..]) + tail;
    assert ps[1..][1..] == ps[2..];
    assert EncodeAll(ps[1..]) + tail == Encode(ps[1]) + more;
    ReadUndoesEncode(ps[1], more);
    if |content| < FRAGMENT_SIZE {
      EndOfFileCarries(digest);
      assert more == tail;
    } else {
      var rest := content[FRAGMENT_SIZE..];
      var qs := FilePackets(rest, digest);
      assert ps[1..] == qs && qs[1..] == ps[2..];
      FileArrivesWhole(rest, digest, tail);
      assert content == content[..FRAGMENT_SIZE] + rest;
      DownloadHeadersDiffer();
      assert ps[1] == qs[0] && qs[0].header == H_AUDRESP;
    }
  }

  /** The bytes the session has still to write at the test of its loop. */
  ghost function Unsent(rest: Bytes, digest: Bytes, counter: nat): Bytes {
    if counter == FRAGMENT_SIZE then EncodeAll(FilePackets(rest, digest)) else Encode(EndOfFile(digest))
  }

  lemma UnsentWhole(content: Bytes, digest: Bytes)
    ensures Unsent(content[0..], digest, FRAGMENT_SIZE) == EncodeAll(FilePackets(content, digest))
  {
    assert content[0..] == content;
  }

  lemma UnsentStep(rest: Bytes, digest: Bytes, buff: Bytes)
    requires buff == if |rest| < FRAGMENT_SIZE then rest else rest[..FRAGMENT_SIZE]
    ensures Unsent(rest, digest, FRAGMENT_SIZE) == Encode(Fragment(buff)) + Unsent(rest[|buff|..], digest, |buff|)
  {
    var ps := FilePackets(rest, digest);
    assert ps[1..] == if |rest| < FRAGMENT_SIZE then [EndOfFile(digest)]
                      else FilePackets(rest[FRAGMENT_SIZE..], digest);
    if |rest| < FRAGMENT_SIZE {
      assert ps[1..][1..] == [];
      assert EncodeAll(ps[1..]) == Encode(EndOfFile(digest)) + [];
    }
  }

  /** One round of the sending loop: read up to a fragment, send what was read. */
  method SendFragment(file: RegularFile, wire: Channel) returns (counter: nat)
    requires file.offset <= |file.content|
    modifies file`offset, wire
    ensures old(file.offset) <= file.offset <= |file.content| && counter == file.offset - old(file.offset)
    ensures counter == FRAGMENT_SIZE || (counter < FRAGMENT_SIZE && file.offset == |file.content|)
    ensures wire.bytes == old(wire.bytes) + Encode(Fragment(file.content[old(file.offset)..file.offset]))
  {
    var buff := file.ReadHere(FRAGMENT_SIZE);
    counter := |buff|;
    wire.WritePacket(Fragment(buff));
  }

  /** The sending branch of DSERVER_threadFunc, for a file that exists. */
  method SendFile(file: RegularFile, md5: Bytes -> Bytes, wire: Channel)
    requires file.offset == 0
    modifies file`offset, wire
    ensures wire.bytes == old(wire.bytes) + EncodeAll(FilePackets(file.content, md5(file.content)))
  {
    hide FilePackets, EncodeAll, Encode, Create, Ascii;
    var digest := md5(file.content);
    ghost var content := file.content;
    var counter: nat := FRAGMENT_SIZE;
    UnsentWhole(content, digest);
    while counter == FRAGMENT_SIZE
      invariant file.content == content && file.offset <= |content|
      invariant wire.bytes + Unsent(content[file.offset..], digest, counter)
                == old(wire.bytes) + EncodeAll(FilePackets(content, digest))
      decreases |content| - file.offset + (if counter == FRAGMENT_SIZE then 1 else 0)
    {
      ghost var from := file.offset;
      counter := SendFragment(file, wire);
      UnsentStep(content[from..], digest, content[from..file.offset]);
      assert content[from..][counter..] == content[file.offset..];
    }
    wire.WritePacket(EndOfFile(digest));
  }

  /** What CLIENT_download does with the answer to its request. */
  datatype Outcome = NoFile | Saved | Corrupted | Ignored

  /** The client's check of the digest packet against the file it has written. */
  method Verdict(digest: Bytes, file: RegularFile, md5: Bytes -> Bytes) returns (outcome: Outcome)
    requires IsDigest(md5) && |digest| >= DIGEST_SIZE
    ensures outcome == if digest[..DIGEST_SIZE] == md5(file.content) then Saved else Corrupted
  {
    var own := md5(file.content);
    var different := Text.Compare(digest, own, DIGEST_SIZE);
    assert own[..DIGEST_SIZE] == own;
    outcome := if different == 0 then Saved else Corrupted;
  }

  /** One round of the reassembly loop: append the packet's data, read the next packet. */
  method StoreAndRead(pa: Packet, wire: Channel, file: RegularFile) returns (next: Packet)
    requires file.offset == 0
    requires Read(wire.bytes).Got?
    modifies wire, file
    ensures file.offset == 0 && file.content == old(file.content) + pa.data
    ensures Got(next, wire.bytes) == Read(old(wire.bytes))
  {
    file.Write(pa.data);
    var r := wire.ReadPacket();
    next := r.packet;
  }

  /** The reassembly loop: `first` has already been read, `file` is the truncated target. */
  method ReceiveFile(first: Packet, wire: Channel, file: RegularFile, md5: Bytes -> Bytes) returns (outcome: Outcome)
    requires IsDigest(md5)
    requires file.offset == 0
    requires Assemble(first, wire.bytes).Done?
    requires |Assemble(first, wire.bytes).digest| >= DIGEST_SIZE
    modifies wire, file
    ensures var a := old(Assemble(first, wire.bytes));
            && file.content == old(file.content) + a.file && wire.bytes == a.rest
            && outcome == (if a.digest[..DIGEST_SIZE] == md5(file.content) then Saved else Corrupted)
    ensures file.offset == 0
  {
    hide Assemble, Read, Ascii;
    ghost var a := Assemble(first, wire.bytes);
    ghost var got := [];
    assert [] + a.file == a.file;
    AssembleStep(a, got, first, wire.bytes);
    got := got + first.data;
    var pa := StoreAndRead(first, wire, file);
    while pa.header != H_AUDEOF
      invariant file.offset == 0 && file.content == old(file.content) + got
      invariant Yields(a, got, pa, wire.bytes)
      decreases |wire.bytes|
    {
      AssembleStep(a, got, pa, wire.bytes);
      got := got + pa.data;
      pa := StoreAndRead(pa, wire, file);
    }
    assert got + [] == got;
    assert a == Done(got, pa.data, wire.bytes);
    outcome := Verdict(pa.data, file, md5);
  }

  /** What reading the answer to a download request leads to, and what is left on the stream after it. */
  ghost predicate Answered(s: Bytes) {
    && Read(s).Got?
    && var p := Read(s).packet;
       p.header == H_AUDRESP ==>
         && Assemble(p, Read(s).rest).Done?
         && |Assemble(p, Read(s).rest).digest| >= DIGEST_SIZE
  }

  /** CLIENT_download after its request: one packet is read, and its header decides. */
  method ReadAnswer(wire: Channel, file: RegularFile, md5: Bytes -> Bytes) returns (outcome: Outcome)
    requires IsDigest(md5) && Answered(wire.bytes)
    requires file.offset == 0 && file.content == []
    modifies wire, file
    ensures var Got(p, rest) := Read(old(wire.bytes));
            if p.header == H_AUDKO then outcome == NoFile && wire.bytes == rest && file.content == []
            else if p.header == H_AUDRESP then
              var a := Assemble(p, rest);
              && file.content == a.file && wire.bytes == a.rest
              && outcome == if a.digest[..DIGEST_SIZE] == md5(a.file) then Saved else Corrupted
            else outcome == Ignored && wire.bytes == rest && file.content == []
  {
    var r := wire.ReadPacket();
    var pa := r.packet;
    if pa.header == H_AUDKO {
      outcome := NoFile;
    } else if pa.header == H_AUDRESP {
      outcome := ReceiveFile(pa, wire, file, md5);
    } else {
      outcome := Ignored;
    }
  }

  /** Both loops over one connection: the answer to a request for an existing file, written by the session
      and read by the client, leaves the client with that file and the stream as it was. */
  method Transfer(source: RegularFile, target: RegularFile, md5: Bytes -> Bytes, wire: Channel)
    returns (outcome: Outcome)
    requires IsDigest(md5) && source != target
    requires source.offset == 0 && target.offset == 0 && target.content == [] && wire.bytes == []
    modifies source`offset, target, wire
    ensures outcome == Saved && target.content == source.content && wire.bytes == []
  {
    hide Read, Assemble, Ascii, Create;
    ghost var content, digest := source.content, md5(source.content);
    ghost var ps := FilePackets(content, digest);
    SendFile(source, md5, wire);
    assert wire.bytes == Encode(ps[0]) + EncodeAll(ps[1..]);
    ReadUndoesEncode(ps[0], EncodeAll(ps[1..]));
    assert EncodeAll(ps[1..]) + [] == EncodeAll(ps[1..]);
    FileArrivesWhole(content, digest, []);
    DownloadHeadersDiffer();
    assert digest[..DIGEST_SIZE] == digest;
    outcome := ReadAnswer(wire, target, md5);
  }
}
