/** Regular files as the program uses them: a content and a current offset, and IO_write of src/io.c. */
module Files {
  import opened Wire

  /** The value an int variable takes when a 64-bit offset is stored in it. */
  function Int32(n: int): (v: int)
    ensures -0x8000_0000 <= v < 0x8000_0000
    ensures v == n <==> -0x8000_0000 <= n < 0x8000_0000
  {
    var m := n % 0x1_0000_0000;
    if m < 0x8000_0000 then m else m - 0x1_0000_0000
  }

  /** Where IO_write leaves an offset that was `before`, in a file that now ends at `end`. */
  function OffsetAfterWrite(before: nat, end: nat): nat {
    if Int32(before) >= 0 then Int32(before) else end
  }

  /** The offset survives if and only if it fits an int, or the saved value is negative and the
      offset already was the new end of the file. */
  lemma OffsetSurvivesIff(before: nat, end: nat)
    ensures OffsetAfterWrite(before, end) == before <==>
            before < 0x8000_0000 || (before % 0x1_0000_0000 >= 0x8000_0000 && before == end)
  {
  }

  /** An offset of 2 to the 31st, in a file that is one byte longer afterwards, is not restored. */
  lemma LargeOffsetIsLost()
    ensures OffsetAfterWrite(0x8000_0000, 0x8000_0001) == 0x8000_0001
  {
  }

  class RegularFile {
    var content: Bytes
    var offset: nat

    /** open with O_TRUNC, or a new empty file. */
    constructor Truncated()
      ensures content == [] && offset == 0
    {
      content, offset := [], 0;
    }

    /** open with O_RDONLY of a file that exists. */
    constructor Opened(content: Bytes)
      ensures this.content == content && offset == 0
    {
      this.content, offset := content, 0;
    }

    method SeekEnd()
      modifies this`offset
      ensures offset == |content|
    {
      offset := |content|;
    }

    /** lseek refuses a negative position and then leaves the offset alone. */
    method SeekSet(position: int)
      modifies this`offset
      ensures offset == if position >= 0 then position else old(offset)
    {
      if position >= 0 {
        offset := position;
      }
    }

    method WriteHere(data: Bytes)
      requires offset <= |content|
      modifies this
      ensures offset == old(offset) + |data|
      ensures content == old(content)[..old(offset)] + data
                         + if offset <= |old(content)| then old(content)[offset..] else []
    {
      var end := offset + |data|;
      content := content[..offset] + data + if end <= |content| then content[end..] else [];
      offset := end;
    }

    method ReadHere(count: nat) returns (data: Bytes)
      requires offset <= |content|
      modifies this`offset
      ensures offset == if old(offset) + count <= |content| then old(offset) + count else |content|
      ensures data == content[old(offset)..offset]
    {
      var end := if offset + count <= |content| then offset + count else |content|;
      data := content[offset..end];
      offset := end;
    }

    /** IO_write appends whatever the offset is, and restores the offset through an int. */
    method Write(data: Bytes)
      modifies this
      ensures content == old(content) + data
      ensures offset == OffsetAfterWrite(old(offset), |content|)
    {
      var current := Int32(offset);
      SeekEnd();
      WriteHere(data);
      SeekSet(current);
    }
  }
}
