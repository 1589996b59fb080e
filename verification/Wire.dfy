/** The packet format of src/packet.c and libs/packet.h: what one packet looks like on a
    stream, what one read of the stream yields, and what a whole stream parses to. */
module Wire {
  import opened Sequences

  newtype byte = x: int | 0 <= x < 256
  type Bytes = seq<byte>

  const T_CONNECT: byte := 1
  const T_MSG: byte := 2
  const T_BROADCAST: byte := 3
  const T_SHOWAUDIOS: byte := 4
  const T_DOWNLOAD: byte := 5
  const T_EXIT: byte := 6

  const CLOSING: byte := ']' as byte

  /** A string constant of the program as the bytes it is made of. */
  function Ascii(s: string): Bytes
    requires forall i :: 0 <= i < |s| ==> s[i] < 128 as char
  {
    seq(|s|, i requires 0 <= i < |s| => s[i] as byte)
  }

  const H_CONOK: Bytes := Ascii("[CONOK]")
  const H_NAME: Bytes := Ascii("[TR_NAME]")
  const H_AUDREQ: Bytes := Ascii("[AUDIO_RQST]")
  const H_AUDKO: Bytes := Ascii("[AUDIO_KO]")
  const H_AUDRESP: Bytes := Ascii("[AUDIO_RSPNS]")
  const H_AUDEOF: Bytes := Ascii("[EOF]")
  const H_MSG: Bytes := Ascii("[MSG]")
  const H_MSGOK: Bytes := Ascii("[MSGOK]")
  const H_SHOWAUDIOS: Bytes := Ascii("[SHOW_AUDIOS]")
  const H_LISTAUDIOS: Bytes := Ascii("[LIST_AUDIOS]")
  const H_BROADCAST: Bytes := Ascii("[BROADCAST]")
  const H_VOID: Bytes := Ascii("[]")

  // The byte CLIENT_checkConnections writes, outside any packet, to see if a peer is alive.
  const PROBE: byte := ' ' as byte

  const NEWLINE: byte := '\n' as byte

  // The length field is an unsigned 16-bit number.
  const LENGTH_LIMIT: nat := 0x1_0000

  datatype Packet = Packet(kind: byte, header: Bytes, data: Bytes)

  predicate KnownKind(k: byte) {
    k == T_CONNECT || k == T_MSG || k == T_BROADCAST || k == T_SHOWAUDIOS || k == T_DOWNLOAD || k == T_EXIT
  }

  /** The first `]` of a header is its last byte. */
  predicate WellFormedHeader(h: Bytes) {
    |h| > 0 && h[|h| - 1] == CLOSING && forall i :: 0 <= i < |h| - 1 ==> h[i] != CLOSING
  }

  predicate WellFormed(p: Packet) {
    KnownKind(p.kind) && WellFormedHeader(p.header) && |p.data| < LENGTH_LIMIT
  }

  /** PACKET_create: the length argument is an unsigned short, and only that many bytes are ever sent. */
  function Create(kind: byte, header: Bytes, data: Bytes): (p: Packet)
    ensures |p.data| < LENGTH_LIMIT
  {
    Packet(kind, header, data[..|data| % LENGTH_LIMIT])
  }

  // Both ends run on the same byte order; low byte first.
  function LengthField(n: nat): Bytes
    requires n < LENGTH_LIMIT
  {
    [(n % 256) as byte, (n / 256) as byte]
  }

  function LengthValue(lo: byte, hi: byte): (n: nat)
    ensures n < LENGTH_LIMIT
  {
    lo as int + 256 * hi as int
  }

  function Encode(p: Packet): Bytes
    requires |p.data| < LENGTH_LIMIT
  {
    [p.kind] + p.header + LengthField(|p.data|) + p.data
  }

  /** What PACKET_read finds at the front of a stream: it waits for more bytes, or swallows one byte
      that is no packet type, or takes a whole packet. */
  datatype Reading =
    | Blocked
    | Skipped(kind: byte, rest: Bytes)
    | Got(packet: Packet, rest: Bytes)

  function Read(s: Bytes): Reading {
    if s == [] then Blocked
    else if !KnownKind(s[0]) then Skipped(s[0], s[1..])
    else ReadBody(s[0], s[1..])
  }

  function ReadBody(kind: byte, s: Bytes): (r: Reading)
    ensures !r.Skipped?
  {
    var h := IndexOf(s, CLOSING);
    if |s| < h + 3 then Blocked
    else
      var n := LengthValue(s[h + 1], s[h + 2]);
      if |s| < h + 3 + n then Blocked
      else Got(Packet(kind, s[..h + 1], s[h + 3..h + 3 + n]), s[h + 3 + n..])
  }

  datatype Token = Noise(b: byte) | Whole(p: Packet)

  predicate ValidToken(t: Token) {
    match t
    case Noise(b) => !KnownKind(b)
    case Whole(p) => WellFormed(p)
  }

  ghost predicate ValidTokens(ts: seq<Token>) {
    forall i :: 0 <= i < |ts| ==> ValidToken(ts[i])
  }

  function TokenBytes(t: Token): (s: Bytes)
    requires ValidToken(t)
    ensures |s| > 0
  {
    match t
    case Noise(b) => [b]
    case Whole(p) => Encode(p)
  }

  ghost function Stream(ts: seq<Token>): Bytes
    requires ValidTokens(ts)
  {
    if ts == [] then [] else TokenBytes(ts[0]) + Stream(ts[1..])
  }

  ghost predicate AllWellFormed(ps: seq<Packet>) {
    forall i :: 0 <= i < |ps| ==> WellFormed(ps[i])
  }

  /** Packets written one after the other. */
  ghost function EncodeAll(ps: seq<Packet>): Bytes
    requires AllWellFormed(ps)
  {
    if ps == [] then [] else Encode(ps[0]) + EncodeAll(ps[1..])
  }

  /** Repeated reading until the reader has to wait: the tokens read and the bytes left over. */
  function Parse(s: Bytes): (r: (seq<Token>, Bytes))
    decreases |s|
  {
    match Read(s)
    case Blocked => ([], s)
    case Skipped(b, rest) =>
      ReadIsInverse(s);
      var (ts, left) := Parse(rest);
      ([Noise(b)] + ts, left)
    case Got(p, rest) =>
      ReadIsInverse(s);
      var (ts, left) := Parse(rest);
      ([Whole(p)] + ts, left)
  }

  /** The headers the two sides send. */
  predicate KnownHeader(h: Bytes) {
    || h == H_CONOK || h == H_NAME || h == H_AUDREQ || h == H_AUDKO || h == H_AUDRESP || h == H_AUDEOF
    || h == H_MSG || h == H_MSGOK || h == H_SHOWAUDIOS || h == H_LISTAUDIOS || h == H_BROADCAST || h == H_VOID
  }

  lemma KnownHeaderIsWellFormed(h: Bytes)
    requires KnownHeader(h)
    ensures WellFormedHeader(h)
  {
  }

  /** The headers a client has to tell apart in the answer to a download request. */
  lemma DownloadHeadersDiffer()
    ensures H_AUDRESP != H_AUDEOF && H_AUDKO != H_AUDEOF && H_AUDKO != H_AUDRESP
  {
    assert |H_AUDRESP| == 13 && |H_AUDKO| == 10 && |H_AUDEOF| == 5;
  }

  /** A created packet is well formed, and carries all its data if and only if the data fits the length field. */
  lemma CreateKeepsData(kind: byte, header: Bytes, data: Bytes)
    requires KnownKind(kind) && WellFormedHeader(header)
    ensures WellFormed(Create(kind, header, data))
    ensures Create(kind, header, data).data == data <==> |data| < LENGTH_LIMIT
  {
    if |data| < LENGTH_LIMIT {
      assert data[..|data|] == data;
    }
  }

  lemma ShortDataIsKept(kind: byte, header: Bytes, data: Bytes)
    requires |data| < LENGTH_LIMIT
    ensures Create(kind, header, data) == Packet(kind, header, data)
  {
    assert data[..|data|] == data;
  }

  lemma TextIs(text: string, n: nat)
    requires |text| == n && forall i :: 0 <= i < |text| ==> text[i] < 128 as char
    ensures |Ascii(text)| == n
  {
  }

  /** A text of 65536 bytes is sent as an empty one. */
  lemma LongTextIsCut(kind: byte, header: Bytes, data: Bytes)
    requires |data| == LENGTH_LIMIT
    ensures Create(kind, header, data) == Packet(kind, header, [])
  {
  }

  lemma LengthRoundTrip(n: nat)
    requires n < LENGTH_LIMIT
    ensures LengthValue(LengthField(n)[0], LengthField(n)[1]) == n
  {
  }

  lemma LengthFieldUnique(lo: byte, hi: byte)
    ensures LengthField(LengthValue(lo, hi)) == [lo, hi]
  {
    var n := LengthValue(lo, hi);
    assert n % 256 == lo as int && n / 256 == hi as int;
  }

  lemma Slices(s: Bytes, a: nat, n: nat)
    requires a + 2 + n <= |s|
    ensures s[a..][2..][..n] == s[a + 2..a + 2 + n] && s[a..][2..][n..] == s[a + 2 + n..]
    ensures s[a..][..2] == [s[a], s[a + 1]]
  {
  }

  lemma ReadBodyOf(kind: byte, header: Bytes, data: Bytes, rest: Bytes)
    requires WellFormedHeader(header) && |data| < LENGTH_LIMIT
    ensures ReadBody(kind, header + LengthField(|data|) + data + rest) == Got(Packet(kind, header, data), rest)
  {
    var body := header + LengthField(|data|) + data + rest;
    var h := |header| - 1;
    assert body[h] == CLOSING && forall i :: 0 <= i < h ==> body[i] == header[i];
    assert IndexOf(body, CLOSING) == h;
    LengthRoundTrip(|data|);
    assert body[h + 1] == LengthField(|data|)[0] && body[h + 2] == LengthField(|data|)[1];
    assert body[..h + 1] == header;
    assert body[h + 3..h + 3 + |data|] == data;
    assert body[h + 3 + |data|..] == rest;
  }

  /** Reading undoes writing, whatever follows on the stream. */
  lemma ReadUndoesEncode(p: Packet, rest: Bytes)
    requires WellFormed(p)
    ensures Read(Encode(p) + rest) == Got(p, rest)
  {
    var s := Encode(p) + rest;
    assert s[1..] == p.header + LengthField(|p.data|) + p.data + rest;
    ReadBodyOf(p.kind, p.header, p.data, rest);
  }

  lemma ReadBodyInverse(kind: byte, s: Bytes)
    requires ReadBody(kind, s).Got?
    ensures var Got(p, rest) := ReadBody(kind, s);
            && p.kind == kind && WellFormedHeader(p.header) && |p.data| < LENGTH_LIMIT
            && s == p.header + LengthField(|p.data|) + p.data + rest
  {
    var h := IndexOf(s, CLOSING);
    LengthFieldUnique(s[h + 1], s[h + 2]);
    var n := LengthValue(s[h + 1], s[h + 2]);
    hide LengthValue, LengthField, IndexOf;
    assert s == s[..h + 1] + [s[h + 1], s[h + 2]] + s[h + 3..h + 3 + n] + s[h + 3 + n..];
  }

  /** Writing undoes reading: whatever a read consumed is exactly the encoding of what it returned,
      one byte for a skipped byte. */
  lemma ReadIsInverse(s: Bytes)
    ensures Read(s).Skipped? ==> !KnownKind(Read(s).kind) && s == [Read(s).kind] + Read(s).rest
    ensures Read(s).Got? ==> WellFormed(Read(s).packet) && s == Encode(Read(s).packet) + Read(s).rest
    ensures !Read(s).Blocked? ==> |Read(s).rest| < |s|
  {
    hide ReadBody, LengthField, WellFormedHeader;
    if Read(s).Got? {
      ReadBodyInverse(s[0], s[1..]);
      var p, rest := Read(s).packet, Read(s).rest;
      assert s == [s[0]] + s[1..];
      assert [p.kind] + (p.header + LengthField(|p.data|) + p.data + rest) == Encode(p) + rest;
    }
  }

  /** A read passes over a byte exactly when it is none of the six types. */
  lemma SkippedIff(s: Bytes)
    ensures Read(s).Skipped? <==> s != [] && !(1 <= s[0] <= 6)
  {
  }

  lemma RestIsBehind(s: Bytes)
    ensures !Read(s).Blocked? ==> |Read(s).rest| <= |s| && Read(s).rest == s[|s| - |Read(s).rest|..]
  {
    hide Read, Encode;
    ReadIsInverse(s);
  }

  /** Bytes that arrive later do not change a read that could already be answered. */
  lemma ReadIsStable(s: Bytes, t: Bytes)
    requires !Read(s).Blocked?
    ensures Read(s).Skipped? ==> Read(s + t) == Skipped(Read(s).kind, Read(s).rest + t)
    ensures Read(s).Got? ==> Read(s + t) == Got(Read(s).packet, Read(s).rest + t)
  {
    if Read(s).Got? {
      ReadIsInverse(s);
      ReadUndoesEncode(Read(s).packet, Read(s).rest + t);
      assert Encode(Read(s).packet) + (Read(s).rest + t) == s + t;
    } else {
      assert (s + t)[1..] == s[1..] + t;
    }
  }

  /** A reader that has seen only part of a packet waits: it never takes a partial packet for a whole one. */
  lemma PartialPacketBlocks(p: Packet, k: nat)
    requires WellFormed(p) && k < |Encode(p)|
    ensures Read(Encode(p)[..k]) == Blocked
  {
    hide Encode, Read;
    var s, t := Encode(p)[..k], Encode(p)[k..];
    if !Read(s).Blocked? {
      ReadIsStable(s, t);
      assert s + t == Encode(p) + [];
      ReadUndoesEncode(p, []);
    }
  }

  /** The encoding is uniquely readable: no packet's encoding is a prefix of another one's. */
  lemma EncodeIsPrefixFree(p: Packet, q: Packet, s: Bytes, t: Bytes)
    requires WellFormed(p) && WellFormed(q)
    requires Encode(p) + s == Encode(q) + t
    ensures p == q && s == t
  {
    ReadUndoesEncode(p, s);
    ReadUndoesEncode(q, t);
  }

  lemma ReadToken(t: Token, rest: Bytes)
    requires ValidToken(t)
    ensures Read(TokenBytes(t) + rest) == match t case Noise(b) => Skipped(b, rest) case Whole(p) => Got(p, rest)
  {
    match t
    case Noise(b) => assert ([b] + rest)[1..] == rest;
    case Whole(p) => ReadUndoesEncode(p, rest);
  }

  lemma ParseToken(t: Token, rest: Bytes)
    requires ValidToken(t)
    ensures Parse(TokenBytes(t) + rest) == ([t] + Parse(rest).0, Parse(rest).1)
  {
    ReadToken(t, rest);
  }

  /** Packets with any bytes between them that are no packet type are read back exactly, in order,
      and the reader then waits on what is left. */
  lemma {:induction false} ParseUndoesStream(ts: seq<Token>, tail: Bytes)
    requires ValidTokens(ts) && Read(tail).Blocked?
    ensures Parse(Stream(ts) + tail) == (ts, tail)
  {
    if ts == [] {
      assert Stream(ts) + tail == tail;
    } else {
      var rest := Stream(ts[1..]) + tail;
      assert Stream(ts) + tail == TokenBytes(ts[0]) + rest;
      ParseToken(ts[0], rest);
      ParseUndoesStream(ts[1..], tail);
      assert ts == [ts[0]] + ts[1..];
    }
  }

  /** Bytes that arrive later only add tokens: the reader goes on with what it was waiting on. */
  lemma {:induction false} ParseGrows(s: Bytes, t: Bytes)
    ensures var (ts, tail) := Parse(s);
            Parse(s + t) == (ts + Parse(tail + t).0, Parse(tail + t).1)
    decreases |s|
  {
    hide Read;
    if !Read(s).Blocked? {
      ReadIsInverse(s);
      ReadIsStable(s, t);
      ParseGrows(Read(s).rest, t);
      var first, ts, more := Parse(s).0[0], Parse(Read(s).rest).0, Parse(Parse(s).1 + t).0;
      assert Parse(s).0 == [first] + ts && Parse(s + t).0 == [first] + (ts + more);
      Regroup([first], ts, more);
    } else {
      assert [] + Parse(s + t).0 == Parse(s + t).0;
    }
  }

  lemma ReadGivesToken(s: Bytes) returns (t: Token)
    requires !Read(s).Blocked?
    ensures ValidToken(t) && s == TokenBytes(t) + Read(s).rest && |Read(s).rest| < |s|
  {
    ReadIsInverse(s);
    t := if Read(s).Skipped? then Noise(Read(s).kind) else Whole(Read(s).packet);
  }

  lemma StreamStep(t: Token, ts: seq<Token>)
    requires ValidToken(t) && ValidTokens(ts)
    ensures ValidTokens([t] + ts) && Stream([t] + ts) == TokenBytes(t) + Stream(ts)
  {
    hide ValidToken, TokenBytes;
    assert ([t] + ts)[1..] == ts;
  }

  /** Every stream splits into tokens and a rest on which the reader waits. */
  lemma {:induction false} StreamUndoesParse(s: Bytes)
    ensures ValidTokens(Parse(s).0) && Stream(Parse(s).0) + Parse(s).1 == s
    ensures Read(Parse(s).1).Blocked?
    decreases |s|
  {
    hide Read, ValidToken, ValidTokens, Stream, TokenBytes;
    if Read(s).Blocked? {
      assert Stream([]) + s == s by { EmptyStream(); }
    } else {
      var rest := Read(s).rest;
      var t := ReadGivesToken(s);
      ParseToken(t, rest);
      StreamUndoesParse(rest);
      var (ts, left) := Parse(rest);
      StreamStep(t, ts);
      assert TokenBytes(t) + Stream(ts) + left == TokenBytes(t) + (Stream(ts) + left);
    }
  }

  lemma EmptyStream()
    ensures ValidTokens([]) && Stream([]) == []
  {
  }

  lemma StreamIsInjective(ts: seq<Token>, us: seq<Token>)
    requires ValidTokens(ts) && ValidTokens(us) && Stream(ts) == Stream(us)
    ensures ts == us
  {
    ParseUndoesStream(ts, []);
    ParseUndoesStream(us, []);
    assert Stream(ts) + [] == Stream(ts) && Stream(us) + [] == Stream(us);
  }
}
