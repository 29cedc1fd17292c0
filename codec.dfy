/** The on-disk container of bits.cpp: integrity check, the byte layout
    written by `writeData` and parsed by `readData`, and the round trip. */
module Codec {
  import opened Results
  import opened Bits
  import opened Packing

  /** The value held by an `EncodedData`: the tree shape (one bit per node),
      the leaf symbols in traversal order, and the message bits. */
  datatype Container = Container(treeShape: seq<Bit>, treeLeaves: seq<bv8>, messageBits: seq<Bit>)

  /** The two ways `checkIntegrityOf` rejects a container. */
  datatype IntegrityError = TooFewLeaves | WrongShapeLength

  /** The ways `readData` rejects its input, one per `error(...)` exit. */
  datatype ReadError =
    | NotThisFormat        // magic header missing or wrong
    | NoCharCount          // no byte for the leaf count
    | CharCountTooLow      // leaf count below two
    | MissingLeaves        // fewer leaf bytes than the count says
    | NoModulus            // no byte for the number of bits in the last byte
    | UnexpectedEndOfFile  // the bit reader needed a byte that is not there

  /** `kFileHeader` = 0xC5106BA7, as a little-endian host lays it out. */
  const Magic: seq<bv8> := [0xA7, 0x6B, 0x10, 0xC5]

  /** Two to the 64: `bitsToRead` is a `uint64_t`. */
  const Two64: int := 0x1_0000_0000_0000_0000

  /** Conversion of an integer to `uint64_t`. */
  function Wrap64(x: int): (r: nat)
    ensures r < Two64
    ensures 0 <= x < Two64 ==> r == x
    ensures -Two64 <= x < 0 ==> r == x + Two64
  {
    x % Two64
  }

  /** Adding to a `uint64_t` wraps like adding to the integer. */
  lemma Wrap64Add(x: int, k: int)
    ensures Wrap64(Wrap64(x) + k) == Wrap64(x + k)
  {
    var q := x / Two64;
    assert Wrap64(x) + k == (x + k) - q * Two64;
    ModuloShift(x + k, -q);
  }

  lemma ModuloShift(a: int, q: int)
    ensures (a + q * Two64) % Two64 == a % Two64
  {
    var r := a % Two64;
    assert a == (a / Two64) * Two64 + r;
    assert a + q * Two64 == (a / Two64 + q) * Two64 + r;
  }

  /** The shape invariant a container must meet before it is written. */
  predicate WellFormed(c: Container)
  {
    |c.treeLeaves| >= 2 && |c.treeShape| == 2 * |c.treeLeaves| - 1
  }

  /** `checkIntegrityOf`: the leaf count is checked before the shape length. */
  function CheckIntegrity(c: Container): (r: Option<IntegrityError>)
    ensures r == None <==> WellFormed(c)
    ensures |c.treeLeaves| < 2 <==> r == Some(TooFewLeaves)
  {
    if |c.treeLeaves| < 2 then Some(TooFewLeaves)
    else if |c.treeShape| != |c.treeLeaves| * 2 - 1 then Some(WrongShapeLength)
    else None
  }

  /** The modulus `writeData` stores: how many bits of the last packed byte
      are meaningful, eight when the bit count is a whole number of bytes. */
  function Modulus(totalBits: nat): (m: nat)
    ensures 1 <= m <= 8
    ensures m == 8 <==> totalBits % 8 == 0
  {
    var modulus := totalBits % 8;
    if modulus == 0 then 8 else modulus
  }

  /** The modulus as the byte put on the stream. */
  function ModulusByte(totalBits: nat): (m: bv8)
    ensures ByteValue(m) == Modulus(totalBits)
  {
    ByteValueOf(Modulus(totalBits));
    ByteOf(Modulus(totalBits))
  }

  /** The byte that holds the leaf count minus one, cut to eight bits as the
      `char` conversion does. */
  function CountByte(leafCount: int): (b: bv8)
    ensures ByteValue(b) == (leafCount - 1) % 256
    ensures 1 <= leafCount <= 256 ==> ByteValue(b) == leafCount - 1
  {
    var value := (leafCount - 1) % 256;
    ByteValueOf(value);
    ByteOf(value)
  }

  /** The bytes `writeData` appends for a container: magic, leaf count less
      one (truncated to a byte), the leaves, the modulus byte, then the tree
      shape and message bits packed least significant bit first. */
  function Encode(c: Container): (r: seq<bv8>)
    ensures |r| == 6 + |c.treeLeaves| + (|c.treeShape| + |c.messageBits| + 7) / 8
  {
    Magic
    + ([CountByte(|c.treeLeaves|)]
    + (c.treeLeaves
    + ([ModulusByte(|c.treeShape| + |c.messageBits|)]
    + Pack(c.treeShape + c.messageBits))))
  }

  /** What `readData` returns for the bytes from the read position to the end
      of the file: the magic number first, then the rest as `DecodeCount`
      says. */
  function Decode(s: seq<bv8>): (r: Result<Container, ReadError>)
    ensures r.Success? ==> WellFormed(r.value) && |r.value.treeLeaves| <= 256
  {
    if |s| < 4 || s[..4] != Magic then Failure(NotThisFormat)
    else DecodeCount(s[4..])
  }

  /** After the magic number: the count byte holds the leaf count minus one,
      and fewer than two leaves is an error. */
  function DecodeCount(t: seq<bv8>): (r: Result<Container, ReadError>)
    ensures r.Success? ==> WellFormed(r.value) && 2 <= |r.value.treeLeaves| <= 256
  {
    if |t| < 1 then Failure(NoCharCount)
    else
      var count := ByteValue(t[0]) + 1;
      if count < 2 then Failure(CharCountTooLow)
      else DecodeLeaves(count, t[1..])
  }

  /** After the count byte: `count` leaf bytes, the modulus byte, then the
      bits as `ReadBits` says. */
  function DecodeLeaves(count: int, t: seq<bv8>): (r: Result<Container, ReadError>)
    requires count >= 2
    ensures r.Success? ==> WellFormed(r.value) && |r.value.treeLeaves| == count
  {
    if |t| < count then Failure(MissingLeaves)
    else if |t| < count + 1 then Failure(NoModulus)
    else ReadBits(t[..count], ByteValue(t[count]), t[count + 1..])
  }

  /** The bit part of `readData`: the number of bits to read is computed
      from the remaining length and the modulus byte as a `uint64_t`, and
      decremented once per tree bit (wrapping below zero); the message loop
      then reads that many more bits. */
  function ReadBits(leaves: seq<bv8>, modulus: int, rest: seq<bv8>): (r: Result<Container, ReadError>)
    requires |leaves| >= 2
    ensures r.Success? ==> WellFormed(r.value) && r.value.treeLeaves == leaves
  {
    var bitsToRead := Wrap64((|rest| - 1) * 8 + modulus);
    var shapeBits := 2 * |leaves| - 1;
    if 8 * |rest| < shapeBits then Failure(UnexpectedEndOfFile)
    else
      var messageBits := Wrap64(bitsToRead - shapeBits);
      if 8 * |rest| < shapeBits + messageBits then Failure(UnexpectedEndOfFile)
      else
        var bits := Unpack(rest);
        Success(Container(bits[..shapeBits], leaves, bits[shapeBits..shapeBits + messageBits]))
  }

  /** `ReadBits` in terms of the bit counts a reader consumes: the tree needs
      `shapeBits`, the message the wrapped remainder `messageBits`. */
  lemma ReadBitsByCounts(leaves: seq<bv8>, modulus: int, rest: seq<bv8>, messageBits: int)
    requires |leaves| >= 2
    requires messageBits == Wrap64(Wrap64((|rest| - 1) * 8 + modulus) - (2 * |leaves| - 1))
    ensures var shapeBits, bits := 2 * |leaves| - 1, Unpack(rest);
      ReadBits(leaves, modulus, rest)
        == if 8 * |rest| < shapeBits + messageBits then Failure(UnexpectedEndOfFile)
           else Success(Container(bits[..shapeBits], leaves, bits[shapeBits..shapeBits + messageBits]))
  {
  }
}

module CodecProofs {
  import opened Results
  import opened Packing
  import opened Seqs
  import opened Codec

  /** Where each part sits in a file laid out as `writeData` lays it out. */
  lemma Layout(count: bv8, leaves: seq<bv8>, modulus: bv8, rest: seq<bv8>)
    ensures var e, n := Magic + ([count] + (leaves + ([modulus] + rest))), |leaves|;
      && |e| == 6 + n + |rest|
      && e[..4] == Magic && e[4] == count && e[5..5 + n] == leaves
      && e[5 + n] == modulus && e[6 + n..] == rest
  {
    var z := [modulus] + rest;
    var y := leaves + z;
    var x := [count] + y;
    ConcatParts(Magic, x);
    ConcatParts([count], y);
    ConcatParts(leaves, z);
    ConcatParts([modulus], rest);
  }

  /** `Encode` as the nesting the layout lemmas take apart. */
  lemma EncodeParts(c: Container)
    ensures Encode(c) == Magic + ([CountByte(|c.treeLeaves|)] + (c.treeLeaves
      + ([ModulusByte(|c.treeShape| + |c.messageBits|)] + Pack(c.treeShape + c.messageBits))))
  {
  }

  /** Where each byte of `Encode(c)` comes from. */
  lemma EncodePositions(c: Container)
    ensures var e, n := Encode(c), |c.treeLeaves|;
      && |e| == 6 + n + |Pack(c.treeShape + c.messageBits)|
      && e[..4] == Magic && e[4] == CountByte(n) && e[5..5 + n] == c.treeLeaves
      && e[5 + n] == ModulusByte(|c.treeShape| + |c.messageBits|)
      && e[6 + n..] == Pack(c.treeShape + c.messageBits)
  {
    EncodeParts(c);
    Layout(CountByte(|c.treeLeaves|), c.treeLeaves, ModulusByte(|c.treeShape| + |c.messageBits|), Pack(c.treeShape + c.messageBits));
  }

  /** Cutting a laid-out file inside its last part cuts only that part. */
  lemma CutLayout(count: bv8, leaves: seq<bv8>, modulus: bv8, rest: seq<bv8>, len: nat)
    requires 6 + |leaves| <= len <= 6 + |leaves| + |rest|
    ensures (Magic + ([count] + (leaves + ([modulus] + rest))))[..len]
      == Magic + ([count] + (leaves + ([modulus] + rest[..len - (6 + |leaves|)])))
  {
    var z := [modulus] + rest;
    var y := leaves + z;
    var x := [count] + y;
    PrefixOfConcat(Magic, x, len);
    PrefixOfConcat([count], y, len - 4);
    PrefixOfConcat(leaves, z, len - 5);
    PrefixOfConcat([modulus], rest, len - 5 - |leaves|);
  }

  /** A laid-out file cut inside its last part still passes the header
      checks, and the bit reader gets what is left of that part. */
  lemma DecodeCut(count: bv8, leaves: seq<bv8>, modulus: bv8, rest: seq<bv8>, len: nat)
    requires |leaves| == ByteValue(count) + 1 >= 2
    requires 6 + |leaves| <= len <= 6 + |leaves| + |rest|
    ensures Decode((Magic + ([count] + (leaves + ([modulus] + rest))))[..len])
      == ReadBits(leaves, ByteValue(modulus), rest[..len - (6 + |leaves|)])
  {
    var cut := Magic + ([count] + (leaves + ([modulus] + rest[..len - (6 + |leaves|)])));
    assert (Magic + ([count] + (leaves + ([modulus] + rest))))[..len] == cut by {
      CutLayout(count, leaves, modulus, rest, len);
    }
    DecodeHeader(cut, count, leaves, modulus, rest[..len - (6 + |leaves|)]);
  }

  /** The layout `writeData` produces: magic, count byte, leaves, modulus
      byte, packed bits. */
  lemma EncodeLayout(c: Container)
    requires WellFormed(c)
    ensures var e, n, total := Encode(c), |c.treeLeaves|, |c.treeShape| + |c.messageBits|;
      && |e| == 6 + n + (total + 7) / 8
      && e[..4] == Magic
      && ByteValue(e[4]) == (n - 1) % 256
      && e[5..5 + n] == c.treeLeaves
      && 1 <= ByteValue(e[5 + n]) <= 8
      && (ByteValue(e[5 + n]) == 8 <==> total % 8 == 0)
      && e[6 + n..] == Pack(c.treeShape + c.messageBits)
  {
    EncodePositions(c);
  }

  /** The magic number check passes on a file that starts with it. */
  lemma DecodeMagic(x: seq<bv8>)
    ensures Decode(Magic + x) == DecodeCount(x)
  {
    ConcatParts(Magic, x);
  }

  /** A count byte of at least one announces that value plus one leaves. */
  lemma DecodeCountByte(count: bv8, u: seq<bv8>)
    requires ByteValue(count) >= 1
    ensures DecodeCount([count] + u) == DecodeLeaves(ByteValue(count) + 1, u)
  {
    ConcatParts([count], u);
  }

  /** With all leaves and the modulus byte present, the rest goes to the bit
      reader. */
  lemma DecodeLeavesOf(leaves: seq<bv8>, modulus: bv8, rest: seq<bv8>)
    requires |leaves| >= 2
    ensures DecodeLeaves(|leaves|, leaves + ([modulus] + rest)) == ReadBits(leaves, ByteValue(modulus), rest)
  {
    ConcatParts(leaves, [modulus] + rest);
    ConcatParts([modulus], rest);
  }

  /** A file laid out as `writeData` lays it out passes the header checks
      and leaves the rest to the bit reader. */
  lemma DecodeHeader(s: seq<bv8>, count: bv8, leaves: seq<bv8>, modulus: bv8, rest: seq<bv8>)
    requires s == Magic + ([count] + (leaves + ([modulus] + rest)))
    requires |leaves| == ByteValue(count) + 1 >= 2
    ensures Decode(s) == ReadBits(leaves, ByteValue(modulus), rest)
  {
    var u := leaves + ([modulus] + rest);
    var t := [count] + u;
    DecodeMagic(t);
    DecodeCountByte(count, u);
    DecodeLeavesOf(leaves, modulus, rest);
  }

  /** Reading back what was written gives the same leaves, tree shape and
      message, for every message length. The leaf count must fit the count
      byte, and the bit count must fit `uint64_t`. */
  lemma RoundTrip(c: Container)
    requires WellFormed(c) && |c.treeLeaves| <= 256
    requires |c.treeShape| + |c.messageBits| < Two64
    ensures Decode(Encode(c)) == Success(c)
  {
    var r := ReadBits(c.treeLeaves, Modulus(|c.treeShape| + |c.messageBits|), Pack(c.treeShape + c.messageBits));
    assert Decode(Encode(c)) == r by {
      DecodeEncode(c);
    }
    assert r == Success(c) by {
      ReadBitsOfPack(c);
    }
  }

  /** The header `writeData` puts down passes every check of `readData`. */
  lemma DecodeEncode(c: Container)
    requires WellFormed(c) && |c.treeLeaves| <= 256
    ensures Decode(Encode(c))
         == ReadBits(c.treeLeaves, Modulus(|c.treeShape| + |c.messageBits|), Pack(c.treeShape + c.messageBits))
  {
    var bits, total := c.treeShape + c.messageBits, |c.treeShape| + |c.messageBits|;
    var count, modulus := CountByte(|c.treeLeaves|), ModulusByte(total);
    var e := Encode(c);
    assert ByteValue(count) == |c.treeLeaves| - 1 && ByteValue(modulus) == Modulus(total);
    assert e == Magic + ([count] + (c.treeLeaves + ([modulus] + Pack(bits))));
    assert Decode(e) == ReadBits(c.treeLeaves, ByteValue(modulus), Pack(bits)) by {
      DecodeHeader(e, count, c.treeLeaves, modulus, Pack(bits));
    }
  }

  /** The remaining length and the modulus give back the bit count. */
  lemma ModulusRecoversLength(total: nat)
    requires total > 0
    ensures ((total + 7) / 8 - 1) * 8 + Modulus(total) == total
  {
  }

  /** The bit part of the round trip: with the modulus `writeData` stores,
      the reader takes back exactly the tree and message bits. */
  lemma ReadBitsOfPack(c: Container)
    requires WellFormed(c)
    requires |c.treeShape| + |c.messageBits| < Two64
    ensures ReadBits(c.treeLeaves, Modulus(|c.treeShape| + |c.messageBits|), Pack(c.treeShape + c.messageBits)) == Success(c)
  {
    var bits := c.treeShape + c.messageBits;
    var shapeBits, total := |c.treeShape|, |bits|;
    var modulus := Modulus(total);
    var rest := Pack(bits);
    var u := Unpack(rest);
    assert (|rest| - 1) * 8 + modulus == total by {
      ModulusRecoversLength(total);
    }
    assert total <= |u| && u[..total] == bits by {
      UnpackPack(bits);
    }
    assert ReadBits(c.treeLeaves, modulus, rest) == Success(Container(u[..shapeBits], c.treeLeaves, u[shapeBits..total])) by {
      ReadBitsSucceeds(c.treeLeaves, modulus, rest);
    }
    SplitPrefix(u, c.treeShape, c.messageBits);
  }

  /** A file cut short anywhere before the packed bits is always rejected,
      with the error of the field that is missing. */
  lemma TruncatedHeaderRejected(c: Container, len: nat)
    requires WellFormed(c) && |c.treeLeaves| <= 256
    requires len < 6 + |c.treeLeaves|
    ensures var r, n := Decode(Encode(c)[..len]), |c.treeLeaves|;
      && (len < 4 ==> r == Failure(NotThisFormat))
      && (len == 4 ==> r == Failure(NoCharCount))
      && (5 <= len < 5 + n ==> r == Failure(MissingLeaves))
      && (len == 5 + n ==> r == Failure(NoModulus))
  {
    var n := |c.treeLeaves|;
    var e := Encode(c);
    assert |e| >= 6 + n && e[..4] == Magic && ByteValue(e[4]) == n - 1 by {
      EncodeLayout(c);
    }
    var p := e[..len];
    if len >= 4 {
      var t := p[4..];
      assert Decode(p) == DecodeCount(t) by {
        assert p[..4] == e[..4];
      }
      if len >= 5 {
        assert t[0] == e[4] && |t[1..]| == len - 5;
      }
    }
  }

  /** Cutting whole bytes off the packed bits is NOT always detected: the
      file is still accepted exactly when the lost bytes held no more bits
      than the message, and the message then comes back shortened by eight
      bits per lost byte. */
  lemma TruncatedBitsShortenMessage(c: Container, len: nat)
    requires WellFormed(c) && |c.treeLeaves| <= 256
    requires |c.treeShape| + |c.messageBits| + 8 < Two64
    requires 6 + |c.treeLeaves| <= len < |Encode(c)|
    ensures var lost := 8 * (|Encode(c)| - len);
      && (Decode(Encode(c)[..len]).Success? <==> lost <= |c.messageBits|)
      && (lost <= |c.messageBits| ==>
            Decode(Encode(c)[..len]) == Success(Container(c.treeShape, c.treeLeaves,
                                                          c.messageBits[..|c.messageBits| - lost])))
  {
    var bits := c.treeShape + c.messageBits;
    var kept := len - (6 + |c.treeLeaves|);
    var d := Decode(Encode(c)[..len]);
    var r := ReadBits(c.treeLeaves, Modulus(|bits|), Pack(bits)[..kept]);
    assert |Encode(c)| - len == |Pack(bits)| - kept && d == r by {
      TruncatedDecode(c, len);
    }
    ReadBitsOfTruncatedPack(c, kept);
  }

  /** An encoding cut inside its packed bits still passes the header checks;
      the reader gets the bytes that are left. */
  lemma TruncatedDecode(c: Container, len: nat)
    requires WellFormed(c) && |c.treeLeaves| <= 256
    requires 6 + |c.treeLeaves| <= len <= |Encode(c)|
    ensures var bits, kept := c.treeShape + c.messageBits, len - (6 + |c.treeLeaves|);
      && |Encode(c)| - len == |Pack(bits)| - kept
      && Decode(Encode(c)[..len]) == ReadBits(c.treeLeaves, Modulus(|bits|), Pack(bits)[..kept])
  {
    var bits, total := c.treeShape + c.messageBits, |c.treeShape| + |c.messageBits|;
    var count, modulus := CountByte(|c.treeLeaves|), ModulusByte(total);
    assert ByteValue(count) + 1 == |c.treeLeaves| && ByteValue(modulus) == Modulus(|bits|);
    var e := Magic + ([count] + (c.treeLeaves + ([modulus] + Pack(bits))));
    assert Encode(c) == e by {
      EncodeParts(c);
    }
    assert |e| == 6 + |c.treeLeaves| + |Pack(bits)| by {
      Layout(count, c.treeLeaves, modulus, Pack(bits));
    }
    assert Decode(e[..len]) == ReadBits(c.treeLeaves, ByteValue(modulus), Pack(bits)[..len - (6 + |c.treeLeaves|)]) by {
      DecodeCut(count, c.treeLeaves, modulus, Pack(bits), len);
    }
  }

  /** The bit part of the truncation lemma: `kept` of the packed bytes remain. */
  lemma ReadBitsOfTruncatedPack(c: Container, kept: nat)
    requires WellFormed(c) && |c.treeLeaves| <= 256
    requires |c.treeShape| + |c.messageBits| + 8 < Two64
    requires kept < |Pack(c.treeShape + c.messageBits)|
    ensures var bits := c.treeShape + c.messageBits;
      var lost, r := 8 * (|Pack(bits)| - kept), ReadBits(c.treeLeaves, Modulus(|bits|), Pack(bits)[..kept]);
      && (r.Success? <==> lost <= |c.messageBits|)
      && (lost <= |c.messageBits| ==>
            r == Success(Container(c.treeShape, c.treeLeaves, c.messageBits[..|c.messageBits| - lost])))
  {
    var bits := c.treeShape + c.messageBits;
    var packed := Pack(bits);
    var modulus := Modulus(|bits|);
    var lost := 8 * (|packed| - kept);
    assert (kept - 1) * 8 + modulus == |bits| - lost by {
      ModulusRecoversLength(|bits|);
    }
    if lost <= |c.messageBits| {
      ReadBitsOfKeptPack(c, modulus, kept);
    } else {
      ReadBitsFailsShort(c.treeLeaves, modulus, packed[..kept]);
    }
  }

  /** The accepted case of `ReadBitsOfTruncatedPack`. */
  lemma ReadBitsOfKeptPack(c: Container, modulus: int, kept: nat)
    requires WellFormed(c)
    requires kept < |Pack(c.treeShape + c.messageBits)|
    requires (kept - 1) * 8 + modulus == |c.treeShape| + |c.messageBits| - 8 * (|Pack(c.treeShape + c.messageBits)| - kept)
    requires 8 * (|Pack(c.treeShape + c.messageBits)| - kept) <= |c.messageBits|
    requires |c.treeShape| + |c.messageBits| < Two64
    ensures var lost := 8 * (|Pack(c.treeShape + c.messageBits)| - kept);
      ReadBits(c.treeLeaves, modulus, Pack(c.treeShape + c.messageBits)[..kept])
        == Success(Container(c.treeShape, c.treeLeaves, c.messageBits[..|c.messageBits| - lost]))
  {
    var bits := c.treeShape + c.messageBits;
    var packed := Pack(bits);
    var lost := 8 * (|packed| - kept);
    var total := |bits|;
    var rest := packed[..kept];
    ReadBitsSucceeds(c.treeLeaves, modulus, rest);
    UnpackPack(bits);
    UnpackPrefix(packed, kept);
    var shortMessage := c.messageBits[..|c.messageBits| - lost];
    assert Unpack(rest)[..total - lost] == c.treeShape + shortMessage by {
      assert Unpack(rest)[..total - lost] == Unpack(packed)[..total][..total - lost];
    }
    SplitPrefix(Unpack(rest), c.treeShape, shortMessage);
  }

  /** When the modulus byte announces at least the tree bits and no more
      bits than the rest holds, the reader returns exactly the announced bits. */
  lemma ReadBitsSucceeds(leaves: seq<bv8>, modulus: int, rest: seq<bv8>)
    requires |leaves| >= 2
    requires 2 * |leaves| - 1 <= (|rest| - 1) * 8 + modulus <= 8 * |rest|
    requires (|rest| - 1) * 8 + modulus < Two64
    ensures var announced, shapeBits := (|rest| - 1) * 8 + modulus, 2 * |leaves| - 1;
      ReadBits(leaves, modulus, rest)
        == Success(Container(Unpack(rest)[..shapeBits], leaves, Unpack(rest)[shapeBits..announced]))
  {
  }

  /** When the modulus byte announces fewer bits than the tree needs, the
      count wraps below zero and the reader runs off the end of the file. */
  lemma ReadBitsFailsShort(leaves: seq<bv8>, modulus: int, rest: seq<bv8>)
    requires |leaves| >= 2
    requires (|rest| - 1) * 8 + modulus < 2 * |leaves| - 1
    requires 0 <= modulus && |leaves| <= 256
    ensures ReadBits(leaves, modulus, rest) == Failure(UnexpectedEndOfFile)
  {
    var announced := (|rest| - 1) * 8 + modulus;
    var shapeBits := 2 * |leaves| - 1;
    if 8 * |rest| >= shapeBits {
      assert Wrap64(Wrap64(announced) - shapeBits) == Two64 + announced - shapeBits;
    }
  }

  /** With more than 256 leaves the count byte wraps and the container does
      not come back. */
  lemma LeafCountWraps(c: Container)
    requires WellFormed(c) && |c.treeLeaves| > 256
    ensures ByteValue(Encode(c)[4]) == (|c.treeLeaves| - 1) % 256
    ensures Decode(Encode(c)) != Success(c)
  {
    EncodeLayout(c);
  }
}
