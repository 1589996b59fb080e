/** One direction of a connection, and the packet routines of src/packet.c that work on it. */
module Channels {
  import opened Sequences
  import opened Wire

  datatype Received = Unknown(kind: byte) | Full(packet: Packet)

  /** The bytes written to a connection and not yet read from it, oldest first. */
  class Channel {
    var bytes: Bytes

    constructor ()
      ensures bytes == []
    {
      bytes := [];
    }

    method Put(data: Bytes)
      modifies this
      ensures bytes == old(bytes) + data
    {
      bytes := bytes + data;
    }

    /** A read that delivers the full count. */
    method Take(n: nat) returns (data: Bytes)
      requires n <= |bytes|
      modifies this
      ensures data == old(bytes)[..n] && bytes == old(bytes)[n..]
    {
      data := bytes[..n];
      bytes := bytes[n..];
    }

    /** PACKET_write, and PACKET_sendFile, which differs only in where the data is kept. */
    method WritePacket(p: Packet)
      requires |p.data| < LENGTH_LIMIT
      modifies this
      ensures bytes == old(bytes) + Encode(p)
    {
      Put([p.kind]);
      Put(p.header);
      Put(LengthField(|p.data|));
      if |p.data| != 0 {
        Put(p.data);
      }
      assert bytes == old(bytes) + ([p.kind] + p.header + LengthField(|p.data|) + p.data);
    }

    /** The loop of PACKET_read that grows the header one byte at a time. */
    method TakeHeader() returns (header: Bytes)
      requires IndexOf(bytes, CLOSING) < |bytes|
      modifies this
      ensures header == old(bytes)[..IndexOf(old(bytes), CLOSING) + 1]
      ensures bytes == old(bytes)[IndexOf(old(bytes), CLOSING) + 1..]
    {
      ghost var h := IndexOf(bytes, CLOSING);
      header := Take(1);
      while header[|header| - 1] != CLOSING
        invariant 1 <= |header| <= h + 1
        invariant header == old(bytes)[..|header|] && bytes == old(bytes)[|header|..]
        decreases h + 1 - |header|
      {
        var next := Take(1);
        header := header + next;
      }
    }

    /** PACKET_read on a stream that holds enough bytes to answer it. */
    method ReadPacket() returns (r: Received)
      requires !Read(bytes).Blocked?
      modifies this
      ensures bytes == Read(old(bytes)).rest
      ensures r == match Read(old(bytes))
                   case Skipped(kind, _) => Unknown(kind)
                   case Got(p, _) => Full(p)
    {
      var kind := Take(1);
      if !KnownKind(kind[0]) {
        return Unknown(kind[0]);
      }
      ghost var body := bytes;
      ghost var h := IndexOf(body, CLOSING);
      var header := TakeHeader();
      var field := Take(2);
      var length := LengthValue(field[0], field[1]);
      Slices(body, h + 1, length);
      var data: Bytes := [];
      if length != 0 {
        data := Take(length);
      }
      r := Full(Packet(kind[0], header, data));
    }
  }
}
