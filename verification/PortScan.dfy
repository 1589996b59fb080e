/** Reading the output of the port scan through a pipe: the readers of src/io.c and the loop of CLIENT_checkPorts. */
module PortScan {
  import opened Sequences
  import opened Wire

  const SPACE: byte := ' ' as byte

  function Digit(d: nat): byte
    requires d < 10
  {
    (d as byte) + 48
  }

  function Decimal(n: nat): Bytes {
    if n < 10 then [Digit(n)] else Decimal(n / 10) + [Digit(n % 10)]
  }

  /** atoi on a text that starts with digits. */
  function Atoi(s: Bytes, sofar: nat): nat {
    if s == [] || !(48 <= s[0] <= 57) then sofar else Atoi(s[1..], 10 * sofar + (s[0] as int - 48))
  }

  lemma {:induction false} AtoiReadsDecimal(n: nat, rest: Bytes)
    ensures Atoi(Decimal(n) + rest, 0) == Atoi(rest, n)
    decreases n
  {
    if n < 10 {
      assert (Decimal(n) + rest)[1..] == rest;
    } else {
      var d := Digit(n % 10);
      AtoiReadsDecimal(n / 10, [d] + rest);
      assert Decimal(n) + rest == Decimal(n / 10) + ([d] + rest);
      assert ([d] + rest)[1..] == rest;
    }
  }

  lemma {:induction false} DecimalHasNoSpace(n: nat)
    ensures SPACE !in Decimal(n)
  {
    if n >= 10 {
      DecimalHasNoSpace(n / 10);
    }
  }

  /** A line of the script's output is `port N is open`. */
  function Line(port: nat): Bytes {
    Ascii("port ") + Decimal(port) + [SPACE] + Ascii("is open") + [NEWLINE]
  }

  function Output(ports: seq<nat>): Bytes {
    if ports == [] then [] else Line(ports[0]) + Output(ports[1..])
  }

  class Pipe {
    var bytes: Bytes

    constructor (bytes: Bytes)
      ensures this.bytes == bytes
    {
      this.bytes := bytes;
    }

    /** IO_checkEOF: the byte it reads is gone, because a pipe cannot be moved back. */
    method CheckEOF() returns (eof: bool)
      modifies this
      ensures eof <==> old(bytes) == []
      ensures bytes == if eof then [] else old(bytes)[1..]
    {
      if bytes == [] {
        return true;
      }
      bytes := bytes[1..];
      return false;
    }

    /** The loop of IO_readUntil and IO_readUntilv2: everything up to the delimiter, without it. */
    method ReadUntil(delimiter: byte) returns (data: Bytes)
      requires IndexOf(bytes, delimiter) < |bytes|
      modifies this
      ensures data == old(bytes)[..IndexOf(old(bytes), delimiter)]
      ensures bytes == old(bytes)[IndexOf(old(bytes), delimiter) + 1..]
    {
      ghost var n := IndexOf(bytes, delimiter);
      data := [];
      while bytes[0] != delimiter
        invariant |data| <= n && data == old(bytes)[..|data|] && bytes == old(bytes)[|data|..]
        decreases n - |data|
      {
        data := data + [bytes[0]];
        bytes := bytes[1..];
      }
      bytes := bytes[1..];
    }
  }

  /** Reading up to a delimiter that comes after a. */
  lemma UpTo(a: Bytes, delimiter: byte, b: Bytes)
    requires delimiter !in a
    ensures var s := a + [delimiter] + b;
            var i := IndexOf(s, delimiter);
            i < |s| && s[..i] == a && s[i + 1..] == b
  {
    FirstBehind(a, delimiter, b);
  }

  lemma Regrouped(word: Bytes, number: Bytes, tail: Bytes, more: Bytes, k: nat)
    requires k <= |word|
    ensures (word + [SPACE] + number + [SPACE] + tail + [NEWLINE] + more)[k..]
            == word[k..] + [SPACE] + (number + [SPACE] + (tail + [NEWLINE] + more))
  {
    var rest := [SPACE] + (number + [SPACE] + (tail + [NEWLINE] + more));
    assert word + [SPACE] + number + [SPACE] + tail + [NEWLINE] + more == word + rest;
    assert (word + rest)[k..] == word[k..] + rest;
  }

  /** The word before the number and the one behind it, with their delimiters. */
  lemma LineInParts(port: nat, more: Bytes, k: nat)
    requires 1 <= k <= 2
    ensures |Ascii("port")| == 4
    ensures (Line(port) + more)[k..]
            == Ascii("port")[k..] + [SPACE] + (Decimal(port) + [SPACE] + (Ascii("is open") + [NEWLINE] + more))
    ensures SPACE !in Ascii("port")[k..] && NEWLINE !in Ascii("is open")
  {
    hide Decimal;
    assert Ascii("port ") == Ascii("port") + [SPACE];
    Regrouped(Ascii("port"), Decimal(port), Ascii("is open"), more, k);
  }

  /** The body of the loop: from a line of which k bytes are gone to the number in it. */
  method ReadPort(pipe: Pipe, ghost port: nat, ghost more: Bytes, ghost k: nat) returns (value: nat)
    requires 1 <= k <= 2 && pipe.bytes == (Line(port) + more)[k..]
    modifies pipe
    ensures value == port && pipe.bytes == more
  {
    hide Line, Decimal, Ascii, IndexOf;
    LineInParts(port, more, k);
    ghost var word, tail := Ascii("port")[k..], Ascii("is open");
    UpTo(word, SPACE, Decimal(port) + [SPACE] + (tail + [NEWLINE] + more));
    var skipped := pipe.ReadUntil(SPACE);
    DecimalHasNoSpace(port);
    UpTo(Decimal(port), SPACE, tail + [NEWLINE] + more);
    var openPort := pipe.ReadUntil(SPACE);
    UpTo(tail, NEWLINE, more);
    skipped := pipe.ReadUntil(NEWLINE);
    AtoiReadsDecimal(port, []);
    assert Decimal(port) + [] == Decimal(port);
    value := Atoi(openPort, 0);
  }

  /** The reading loop of CLIENT_checkPorts. */
  method ReadPorts(pipe: Pipe, availPorts: array<int>, ghost ports: seq<nat>) returns (count: nat)
    requires pipe.bytes == Output(ports) && |ports| <= availPorts.Length
    requires forall i :: 0 <= i < |ports| ==> 0 < ports[i] < 0x8000_0000
    modifies pipe, availPorts
    ensures count == |ports| && forall i :: 0 <= i < count ==> availPorts[i] == ports[i]
    ensures pipe.bytes == []
  {
    hide Line, Decimal, Ascii;
    count := 0;
    assert ports[0..] == ports;
    while true
      invariant count <= |ports| && (count > 0 ==> count < |ports|)
      invariant forall i :: 0 <= i < count ==> availPorts[i] == ports[i]
      invariant pipe.bytes == if count == 0 then Output(ports[0..]) else Behind(Output(ports[count..]))
      decreases |ports| - count
    {
      ghost var k := if count == 0 then 1 else 2;
      if count < |ports| {
        FirstLine(ports, count);
      }
      var eof := pipe.CheckEOF();
      if eof {
        break;
      }
      ghost var more := Output(ports[count + 1..]);
      availPorts[count] := ReadPort(pipe, ports[count], more, k);
      if availPorts[0] != 0 {
        count := count + 1;
      }
      eof := pipe.CheckEOF();
      if eof {
        break;
      }
    }
  }

  /** The stream after a test for its end has swallowed a byte. */
  function Behind(s: Bytes): Bytes {
    if s == [] then [] else s[1..]
  }

  lemma FirstLine(ports: seq<nat>, i: nat)
    requires i < |ports|
    ensures Output(ports[i..]) == Line(ports[i]) + Output(ports[i + 1..]) && |Line(ports[i])| >= 5
    ensures Output(ports[i..])[1..][1..] == (Line(ports[i]) + Output(ports[i + 1..]))[2..]
    ensures Output(ports[i + 1..]) == [] <==> i + 1 == |ports|
  {
    assert ports[i..][1..] == ports[i + 1..];
    if i + 1 < |ports| {
      assert ports[i + 1..][0] == ports[i + 1];
    }
  }
}
