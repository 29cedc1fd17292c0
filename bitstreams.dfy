/** The byte streams of bits.cpp and its two bit adapters, BitWriter and
    BitReader, each keeping a one-byte buffer and a bit index. */
module BitStreams {
  import opened Results
  import opened Bits
  import opened Packing

  /** An output byte stream (`ostream`): bytes are only ever appended. */
  class ByteSink {
    var bytes: seq<bv8>

    constructor ()
      ensures bytes == []
    {
      bytes := [];
    }

    /** `ostream::put` */
    method Put(b: bv8)
      modifies this
      ensures bytes == old(bytes) + [b]
    {
      bytes := bytes + [b];
    }

    /** `ostream::write(buf, n)` */
    method Write(bs: seq<bv8>)
      modifies this
      ensures bytes == old(bytes) + bs
    {
      bytes := bytes + bs;
    }
  }

  /** An input byte stream (`istream`) over a fixed file: the bytes and the
      current read position. */
  class ByteSource {
    const data: seq<bv8>
    var pos: nat

    ghost predicate Valid()
      reads this
    {
      pos <= |data|
    }

    constructor (data: seq<bv8>)
      ensures Valid() && this.data == data && pos == 0
    {
      this.data := data;
      pos := 0;
    }

    /** `istream::get(char&)`: fails at the end of the data. */
    method Get() returns (ok: bool, b: bv8)
      requires Valid()
      modifies this
      ensures Valid()
      ensures ok <==> old(pos) < |data|
      ensures ok ==> b == data[old(pos)] && pos == old(pos) + 1
      ensures !ok ==> pos == old(pos)
    {
      ok := pos < |data|;
      if ok {
        b := data[pos];
        pos := pos + 1;
      } else {
        b := 0;
      }
    }

    /** `istream::read(buf, n)`: fails when fewer than `n` bytes are left,
        after consuming what was left. */
    method Read(n: nat) returns (ok: bool, bs: seq<bv8>)
      requires Valid()
      modifies this
      ensures Valid()
      ensures ok <==> old(pos) + n <= |data|
      ensures ok ==> bs == data[old(pos)..old(pos) + n] && pos == old(pos) + n
      ensures !ok ==> pos == |data|
    {
      ok := pos + n <= |data|;
      if ok {
        bs := data[pos..pos + n];
        pos := pos + n;
      } else {
        bs := data[pos..];
        pos := |data|;
      }
    }

    /** The distance from the read position to the end, which the source
        measures with `tellg` and `seekg(0, end)`. */
    function Remaining(): (n: nat)
      requires Valid()
      reads this
      ensures pos + n == |data|
    {
      |data| - pos
    }
  }

  /** Packs bits into bytes, least significant bit first, onto a sink. */
  class BitWriter {
    const sink: ByteSink
    var bitBuffer: bv8
    var bitIndex: nat

    /** What the sink held when the writer was made. */
    ghost const Prefix: seq<bv8>
    /** The bits already flushed to the sink, a whole number of bytes. */
    ghost var Done: seq<Bit>
    /** The bits put since the last flush. */
    ghost var Pending: seq<Bit>

    /** Every bit put so far. */
    ghost function Written(): seq<Bit>
      reads this
    {
      Done + Pending
    }

    /** The sink holds the bytes of `Done`; the buffer holds `Pending`, whose
        length is the bit index. */
    ghost predicate Valid()
      reads this, sink
    {
      && |Done| % 8 == 0
      && bitIndex == |Pending| < 8
      && sink.bytes == Prefix + Pack(Done)
      && bitBuffer == PackByte(Pending)
    }

    constructor (out: ByteSink)
      ensures Valid() && sink == out && Prefix == out.bytes && Written() == []
      ensures bitBuffer == 0 && bitIndex == 0
    {
      sink := out;
      bitBuffer := 0;
      bitIndex := 0;
      Prefix := out.bytes;
      Done, Pending := [], [];
    }

    /** `BitWriter::put`: sets buffer bit `bitIndex` for a one bit; the
        eighth bit flushes the buffer as one byte. */
    method Put(b: Bit)
      requires Valid()
      modifies this, sink
      ensures Valid() && Written() == old(Written()) + [b]
      ensures old(bitIndex) < 7 ==> sink.bytes == old(sink.bytes) && bitIndex == old(bitIndex) + 1
      ensures old(bitIndex) == 7 ==>
        && sink.bytes == old(sink.bytes) + [PackByte(old(Pending) + [b])]
        && bitBuffer == 0 && bitIndex == 0
    {
      SetNext(b);
      if bitIndex == 8 {
        ghost var group := Pending;
        Flush();
        assert sink.bytes == Prefix + Pack(Done + group) by {
          PackAppend(Done, group);
        }
        Done, Pending := Done + group, [];
      }
    }

    /** The bit-setting half of `BitWriter::put`: a one bit sets buffer bit
        `bitIndex`, and the index moves on. */
    method SetNext(b: Bit)
      requires Valid()
      modifies this
      ensures Done == old(Done) && Pending == old(Pending) + [b]
      ensures bitIndex == |Pending| <= 8 && bitBuffer == PackByte(Pending)
    {
      var buffer := bitBuffer;
      if NotEqual(b, Zero) {
        buffer := buffer | Mask(bitIndex);
      }
      assert buffer == PackByte(Pending + [b]) by {
        PackBytePush(Pending, b);
      }
      bitBuffer, bitIndex := buffer, bitIndex + 1;
      Pending := Pending + [b];
    }

    /** `BitWriter::flush`: emits the buffer and starts a new byte. */
    method Flush()
      modifies this, sink
      ensures sink.bytes == old(sink.bytes) + [old(bitBuffer)]
      ensures bitBuffer == 0 && bitIndex == 0
      ensures Done == old(Done) && Pending == old(Pending)
    {
      sink.Put(bitBuffer);
      bitBuffer := 0;
      bitIndex := 0;
    }

    /** `~BitWriter`: flushes a partial byte of 1..7 pending bits, otherwise
        writes nothing. Afterwards the sink holds `Pack(Written())`. */
    method Close()
      requires Valid()
      modifies this, sink
      ensures sink.bytes == Prefix + Pack(old(Written()))
      ensures old(bitIndex) == 0 ==> sink.bytes == old(sink.bytes)
      ensures old(bitIndex) != 0 ==> sink.bytes == old(sink.bytes) + [old(bitBuffer)]
    {
      if bitIndex != 0 {
        PackAppend(Done, Pending);
        Flush();
      } else {
        assert Done + Pending == Done;
      }
    }
  }

  /** Unpacks bytes of a source into bits, least significant bit first,
      fetching a byte only when the current one is used up. */
  class BitReader {
    const source: ByteSource
    var bitBuffer: bv8
    var bitIndex: nat

    /** The source position when the reader was made. */
    ghost const Start: nat
    /** How many bits have been returned so far. */
    ghost var Taken: nat

    /** The source has advanced by one byte per started group of eight bits;
        a partly used byte sits in the buffer. */
    ghost predicate Valid()
      reads this, source
    {
      && source.Valid()
      && Start <= source.pos
      && bitIndex <= 8
      && Taken + 8 == 8 * (source.pos - Start) + bitIndex
      && (bitIndex < 8 ==> Start < source.pos && bitBuffer == source.data[source.pos - 1])
    }

    /** The bits this reader yields: those of the bytes after `Start`. */
    ghost function Stream(): seq<Bit>
      reads this, source
      requires Valid()
    {
      Unpack(source.data[Start..])
    }

    constructor (input: ByteSource)
      requires input.Valid()
      ensures Valid() && source == input && Start == input.pos && Taken == 0
      ensures bitIndex == 8
    {
      source := input;
      bitBuffer := 0;
      bitIndex := 8;
      Start := input.pos;
      Taken := 0;
    }

    /** `BitReader::get`: the next bit of the stream, or the end-of-file error
        when a byte is needed and none is left. */
    method Get() returns (r: Result<Bit, ()>)
      requires Valid()
      modifies this, source
      ensures Valid()
      ensures r.Success? <==> old(Taken) < |Stream()|
      ensures r.Success? ==> r.value == Stream()[old(Taken)] && Taken == old(Taken) + 1
      ensures r.Success? ==> source.pos == Start + (Taken + 7) / 8
      ensures r.Failure? ==> source.pos == old(source.pos)
    {
      if bitIndex == 8 {
        var ok := ReadMore();
        if !ok {
          return Failure(());
        }
      }
      r := Success(BitAt(bitBuffer, bitIndex));
      assert Taken / 8 == source.pos - 1 - Start && Taken % 8 == bitIndex;
      bitIndex := bitIndex + 1;
      Taken := Taken + 1;
    }

    /** `BitReader::readMore`: loads the next byte of the source. */
    method ReadMore() returns (ok: bool)
      requires Valid() && bitIndex == 8
      modifies this, source
      ensures Valid() && Taken == old(Taken)
      ensures ok <==> old(Taken) < |Stream()|
      ensures ok ==> bitIndex == 0
    {
      var b;
      ok, b := source.Get();
      if ok {
        bitBuffer := b;
        bitIndex := 0;
      }
    }
  }
}
