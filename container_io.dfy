/** `writeData` and `readData`: the container is an object whose three
    queues `writeData` drains and `readData` fills. */
module ContainerIO {
  import opened Results
  import opened Bits
  import opened Packing
  import opened BitStreams
  import opened Codec
  import opened CodecProofs
  import opened Seqs

  /** `EncodedData`: three first-in-first-out queues. */
  class EncodedData {
    var treeShape: seq<Bit>
    var treeLeaves: seq<bv8>
    var messageBits: seq<Bit>

    constructor ()
      ensures Contents() == Container([], [], [])
    {
      treeShape, treeLeaves, messageBits := [], [], [];
    }

    /** The value the queues currently hold. */
    function Contents(): Container
      reads this
    {
      Container(treeShape, treeLeaves, messageBits)
    }
  }

  /** `writeData`: rejects a container that fails `checkIntegrityOf` before
      writing anything; otherwise appends `Encode` of it and leaves all three
      queues empty. */
  method WriteData(data: EncodedData, out: ByteSink) returns (r: Option<IntegrityError>)
    modifies data, out
    ensures r == CheckIntegrity(old(data.Contents()))
    ensures r.Some? ==> out.bytes == old(out.bytes) && data.Contents() == old(data.Contents())
    ensures r.None? ==> out.bytes == old(out.bytes) + Encode(old(data.Contents()))
    ensures r.None? ==> data.Contents() == Container([], [], [])
  {
    r := CheckIntegrity(data.Contents());
    if r.Some? {
      return;
    }
    ghost var c := data.Contents();
    ghost var start := out.bytes;
    out.Write(Magic);
    var charByte := CountByte(|data.treeLeaves|);
    out.Put(charByte);
    WriteLeaves(data, out);
    var modulus := ModulusByte(|data.treeShape| + |data.messageBits|);
    out.Put(modulus);
    ghost var header := out.bytes;
    assert header == start + Magic + [charByte] + c.treeLeaves + [modulus];
    WriteBits(data, out);
    ghost var packed := Pack(c.treeShape + c.messageBits);
    assert out.bytes == start + (Magic + ([charByte] + (c.treeLeaves + ([modulus] + packed)))) by {
      AppendFive(start, Magic, [charByte], c.treeLeaves, [modulus], packed);
    }
    assert Encode(c) == Magic + ([charByte] + (c.treeLeaves + ([modulus] + packed))) by {
      EncodeParts(c);
    }
  }

  /** The leaf loop of `writeData`: each leaf is dequeued and written as
      one byte. */
  method WriteLeaves(data: EncodedData, out: ByteSink)
    modifies data, out
    ensures out.bytes == old(out.bytes) + old(data.treeLeaves)
    ensures data.treeLeaves == []
    ensures data.treeShape == old(data.treeShape) && data.messageBits == old(data.messageBits)
  {
    ghost var leaves := data.treeLeaves;
    while data.treeLeaves != []
      invariant out.bytes == old(out.bytes) + leaves[..|leaves| - |data.treeLeaves|]
      invariant data.treeLeaves == leaves[|leaves| - |data.treeLeaves|..]
      invariant data.treeShape == old(data.treeShape) && data.messageBits == old(data.messageBits)
      decreases |data.treeLeaves|
    {
      var leaf := data.treeLeaves[0];
      data.treeLeaves := data.treeLeaves[1..];
      out.Put(leaf);
    }
  }

  /** The last part of `writeData`: a BitWriter over `out` drains the tree
      shape, then the message; its destructor flushes the last byte. */
  method WriteBits(data: EncodedData, out: ByteSink)
    requires data.treeLeaves == []
    modifies data, out
    ensures out.bytes == old(out.bytes) + Pack(old(data.treeShape) + old(data.messageBits))
    ensures data.Contents() == Container([], [], [])
  {
    ghost var shape, message := data.treeShape, data.messageBits;
    var writer := new BitWriter(out);
    WriteShape(data, writer);
    assert writer.Written() == shape;
    WriteMessage(data, writer);
    writer.Close();
  }

  /** The tree-shape loop of `writeData`: each bit is dequeued and put. */
  method WriteShape(data: EncodedData, writer: BitWriter)
    requires writer.Valid()
    modifies data, writer, writer.sink
    ensures writer.Valid() && writer.Written() == old(writer.Written()) + old(data.treeShape)
    ensures data.treeShape == [] && data.treeLeaves == old(data.treeLeaves) && data.messageBits == old(data.messageBits)
  {
    ghost var shape := data.treeShape;
    ghost var k := 0;
    while data.treeShape != []
      invariant writer.Valid() && 0 <= k <= |shape|
      invariant writer.Written() == old(writer.Written()) + shape[..k] && data.treeShape == shape[k..]
      invariant data.treeLeaves == old(data.treeLeaves) && data.messageBits == old(data.messageBits)
      decreases |data.treeShape|
    {
      var b := data.treeShape[0];
      data.treeShape := data.treeShape[1..];
      writer.Put(b);
      k := k + 1;
      assert shape[..k] == shape[..k - 1] + [b];
    }
    assert shape[..k] == shape;
  }

  /** The message loop of `writeData`: each bit is dequeued and put. */
  method WriteMessage(data: EncodedData, writer: BitWriter)
    requires writer.Valid()
    modifies data, writer, writer.sink
    ensures writer.Valid() && writer.Written() == old(writer.Written()) + old(data.messageBits)
    ensures data.messageBits == [] && data.treeLeaves == old(data.treeLeaves) && data.treeShape == old(data.treeShape)
  {
    ghost var message := data.messageBits;
    ghost var k := 0;
    while data.messageBits != []
      invariant writer.Valid() && 0 <= k <= |message|
      invariant writer.Written() == old(writer.Written()) + message[..k] && data.messageBits == message[k..]
      invariant data.treeLeaves == old(data.treeLeaves) && data.treeShape == old(data.treeShape)
      decreases |data.messageBits|
    {
      var b := data.messageBits[0];
      data.messageBits := data.messageBits[1..];
      writer.Put(b);
      k := k + 1;
      assert message[..k] == message[..k - 1] + [b];
    }
    assert message[..k] == message;
  }
}

module ContainerRead {
  import opened Results
  import opened Packing
  import opened BitStreams
  import opened Codec
  import opened ContainerIO
  import opened Seqs

  /** `readData`: reads from the current position of `input` to its end and
      returns what `Decode` says, failing with the same error. */
  method ReadData(input: ByteSource) returns (r: Result<EncodedData, ReadError>)
    requires input.Valid()
    modifies input
    ensures input.Valid()
    ensures r.Failure? ==> Decode(input.data[old(input.pos)..]) == Failure(r.error)
    ensures r.Success? ==> fresh(r.value) && Decode(input.data[old(input.pos)..]) == Success(r.value.Contents())
  {
    ghost var s := input.data[input.pos..];
    var ok, header := input.Read(4);
    if !ok || header != Magic {
      assert Decode(s) == Failure(NotThisFormat) by {
        if ok { assert s[..4] == header; }
      }
      return Failure(NotThisFormat);
    }
    assert s[..4] == Magic && s[4..] == input.data[input.pos..];

    var data := new EncodedData();
    r := ReadCountInto(data, input);
  }

  /** The count byte of `readData`: the leaf count is the byte plus one, and
      must be at least two. */
  method ReadCountInto(data: EncodedData, input: ByteSource) returns (r: Result<EncodedData, ReadError>)
    requires input.Valid() && data.Contents() == Container([], [], [])
    modifies data, input
    ensures input.Valid()
    ensures r.Failure? ==> DecodeCount(input.data[old(input.pos)..]) == Failure(r.error)
    ensures r.Success? ==> r.value == data && DecodeCount(input.data[old(input.pos)..]) == Success(data.Contents())
  {
    ghost var t := input.data[input.pos..];
    var ok, skewCharCount := input.Get();
    if !ok {
      return Failure(NoCharCount);
    }
    assert t[0] == skewCharCount && t[1..] == input.data[input.pos..];
    var charCount := ByteValue(skewCharCount) + 1;
    if charCount < 2 {
      return Failure(CharCountTooLow);
    }
    r := ReadLeavesInto(data, input, charCount);
  }

  /** The leaves and the modulus byte of `readData`, then the bits. */
  method ReadLeavesInto(data: EncodedData, input: ByteSource, charCount: int) returns (r: Result<EncodedData, ReadError>)
    requires input.Valid() && charCount >= 2 && data.Contents() == Container([], [], [])
    modifies data, input
    ensures input.Valid()
    ensures r.Failure? ==> DecodeLeaves(charCount, input.data[old(input.pos)..]) == Failure(r.error)
    ensures r.Success? ==> r.value == data && DecodeLeaves(charCount, input.data[old(input.pos)..]) == Success(data.Contents())
  {
    ghost var t := input.data[input.pos..];
    var ok, leaves := input.Read(charCount);
    if !ok {
      return Failure(MissingLeaves);
    }
    assert t[..charCount] == leaves;
    EnqueueLeaves(data, leaves);
    assert data.treeLeaves == leaves;

    var modulus;
    ok, modulus := input.Get();
    if !ok {
      return Failure(NoModulus);
    }
    assert t[charCount] == modulus && t[charCount + 1..] == input.data[input.pos..];
    r := ReadBitsInto(data, input, ByteValue(modulus));
  }

  /** The leaf loop of `readData`: each leaf byte read is enqueued. */
  method EnqueueLeaves(data: EncodedData, leaves: seq<bv8>)
    modifies data
    ensures data.treeLeaves == old(data.treeLeaves) + leaves
    ensures data.treeShape == old(data.treeShape) && data.messageBits == old(data.messageBits)
  {
    for i := 0 to |leaves|
      invariant data.treeLeaves == old(data.treeLeaves) + leaves[..i]
      invariant data.treeShape == old(data.treeShape) && data.messageBits == old(data.messageBits)
    {
      data.treeLeaves := data.treeLeaves + [leaves[i]];
    }
    assert leaves[..|leaves|] == leaves;
  }

  /** The bit part of `readData`: the number of bits to read comes from the
      distance to the end of the file and the modulus byte; a BitReader then
      fills the tree shape with `2 * count - 1` bits and the message with the
      rest. */
  method ReadBitsInto(data: EncodedData, input: ByteSource, modulus: int) returns (r: Result<EncodedData, ReadError>)
    requires input.Valid() && |data.treeLeaves| >= 2
    requires data.treeShape == [] && data.messageBits == []
    modifies data, input
    ensures input.Valid()
    ensures r.Failure? ==> ReadBits(old(data.treeLeaves), modulus, input.data[old(input.pos)..]) == Failure(r.error)
    ensures r.Success? ==> r.value == data
    ensures r.Success? ==> ReadBits(old(data.treeLeaves), modulus, input.data[old(input.pos)..]) == Success(data.Contents())
  {
    ghost var rest := input.data[input.pos..];
    ghost var leaves := data.treeLeaves;
    var bitsToRead := Wrap64((input.Remaining() - 1) * 8 + modulus);
    ghost var announced := (|rest| - 1) * 8 + modulus;
    var shapeBits := 2 * |data.treeLeaves| - 1;
    var reader := new BitReader(input);
    ghost var bits := reader.Stream();
    assert bits == Unpack(rest) && |bits| == 8 * |rest|;

    var ok;
    ok, bitsToRead := ReadShape(data, reader, shapeBits, bitsToRead);
    if !ok {
      ReadBitsByCounts(leaves, modulus, rest, Wrap64(Wrap64(announced) - shapeBits));
      return Failure(UnexpectedEndOfFile);
    }
    ReadBitsByCounts(leaves, modulus, rest, bitsToRead);
    ok := ReadMessage(data, reader, bitsToRead);
    if !ok {
      return Failure(UnexpectedEndOfFile);
    }
    assert data.treeShape == bits[..shapeBits];
    return Success(data);
  }

  /** The tree loop of `readData`: `shapeBits` bits from the reader into the
      tree-shape queue, decrementing the `uint64_t` bit count once per bit. */
  method ReadShape(data: EncodedData, reader: BitReader, shapeBits: nat, bitsToRead: int)
    returns (ok: bool, left: nat)
    requires reader.Valid() && data.treeShape == []
    modifies data, reader, reader.source
    ensures reader.Valid() && reader.Stream() == old(reader.Stream())
    ensures ok <==> old(reader.Taken) + shapeBits <= |reader.Stream()|
    ensures ok ==> data.treeShape == reader.Stream()[old(reader.Taken)..old(reader.Taken) + shapeBits]
    ensures ok ==> reader.Taken == old(reader.Taken) + shapeBits && left == Wrap64(bitsToRead - shapeBits)
    ensures data.messageBits == old(data.messageBits) && data.treeLeaves == old(data.treeLeaves)
  {
    ghost var stream := reader.Stream();
    ghost var start := reader.Taken;
    left := Wrap64(bitsToRead);
    assert left == Wrap64(bitsToRead - 0);
    for i := 0 to shapeBits
      invariant reader.Valid() && reader.Stream() == stream
      invariant reader.Taken == start + i <= |stream|
      invariant data.treeShape == stream[start..reader.Taken]
      invariant left == Wrap64(bitsToRead - i)
      invariant data.messageBits == old(data.messageBits) && data.treeLeaves == old(data.treeLeaves)
    {
      ghost var taken := reader.Taken;
      var bit := reader.Get();
      if bit.Failure? {
        return false, left;
      }
      data.treeShape := data.treeShape + [bit.value];
      SliceExtend(stream, start, taken);
      assert Wrap64(left - 1) == Wrap64(bitsToRead - (i + 1)) by {
        Wrap64Add(bitsToRead - i, -1);
      }
      left := Wrap64(left - 1);
    }
    ok := true;
  }

  /** The message loop of `readData`: `bitsToRead` more bits from the reader,
      each appended to the message queue. */
  method ReadMessage(data: EncodedData, reader: BitReader, bitsToRead: nat) returns (ok: bool)
    requires reader.Valid() && data.messageBits == []
    modifies data, reader, reader.source
    ensures reader.Valid() && reader.Stream() == old(reader.Stream())
    ensures ok <==> old(reader.Taken) + bitsToRead <= |reader.Stream()|
    ensures ok ==> data.messageBits == reader.Stream()[old(reader.Taken)..old(reader.Taken) + bitsToRead]
    ensures data.treeShape == old(data.treeShape) && data.treeLeaves == old(data.treeLeaves)
  {
    ghost var stream := reader.Stream();
    ghost var start := reader.Taken;
    var left := bitsToRead;
    while left > 0
      invariant reader.Valid() && reader.Stream() == stream
      invariant 0 <= left <= bitsToRead
      invariant reader.Taken == start + (bitsToRead - left) <= |stream|
      invariant data.messageBits == stream[start..reader.Taken]
      invariant data.treeShape == old(data.treeShape) && data.treeLeaves == old(data.treeLeaves)
      decreases left
    {
      ghost var taken := reader.Taken;
      var bit := reader.Get();
      if bit.Failure? {
        return false;
      }
      data.messageBits := data.messageBits + [bit.value];
      SliceExtend(stream, start, taken);
      left := left - 1;
    }
    return true;
  }
}
