/** How BitWriter lays bits out in bytes (least significant bit first) and how
    BitReader takes them back, stated as functions on sequences. */
module Packing {
  import opened Bits

  /** `1 << k`, the mask of bit position `k`, spelled out per position. */
  function Mask(k: nat): bv8
    requires k < 8
  {
    match k
    case 0 => 0x01
    case 1 => 0x02
    case 2 => 0x04
    case 3 => 0x08
    case 4 => 0x10
    case 5 => 0x20
    case 6 => 0x40
    case _ => 0x80
  }

  /** Two to the `k`, the weight of bit position `k`. */
  function Weight(k: nat): nat
    requires k <= 8
  {
    match k
    case 0 => 1
    case 1 => 2
    case 2 => 4
    case 3 => 8
    case 4 => 16
    case 5 => 32
    case 6 => 64
    case 7 => 128
    case _ => 256
  }

  /** The unsigned value of the low `k` bits of a byte. */
  function LowValue(b: bv8, k: nat): (n: nat)
    requires k <= 8
    ensures n < Weight(k)
  {
    if k == 0 then 0
    else 2 * LowValue(b >> 1, k - 1) + (if b & 1 != 0 then 1 else 0)
  }

  /** The unsigned value of a byte, `uint8_t(b)`. */
  function ByteValue(b: bv8): (n: nat)
    ensures n < 256
  {
    LowValue(b, 8)
  }

  /** The byte whose unsigned value is `n`, `char(n)`, built from the high
      bits down. */
  function ByteOf(n: nat): (b: bv8)
    requires n < 256
  {
    if n == 0 then 0
    else (ByteOf(n / 2) << 1) | (if n % 2 == 1 then 1 else 0)
  }

  /** A value below two to the `k` makes a byte below bit `k`. */
  lemma {:induction false} ByteOfBelow(n: nat, k: nat)
    requires k < 8 && n < Weight(k)
    ensures ByteOf(n) < Mask(k)
  {
    if n > 0 {
      ByteOfBelow(n / 2, k - 1);
    }
  }

  /** The low `k` bits of `ByteOf(n)` are worth `n`, for `n` below two to the `k`. */
  lemma {:induction false} LowValueOf(n: nat, k: nat)
    requires k <= 8 && n < Weight(k)
    ensures LowValue(ByteOf(n), k) == n
  {
    if k > 0 {
      if n == 0 {
        LowValueOf(0, k - 1);
      } else {
        var y := ByteOf(n / 2);
        ByteOfBelow(n / 2, 7);
        assert ((y << 1) | (if n % 2 == 1 then 1 else 0)) >> 1 == y;
        LowValueOf(n / 2, k - 1);
      }
    }
  }

  /** `ByteValue` undoes `ByteOf` on 0..255. */
  lemma ByteValueOf(n: nat)
    requires n < 256
    ensures ByteValue(ByteOf(n)) == n
  {
    LowValueOf(n, 8);
  }

  /** Bit `k` (0 = least significant) of a byte, as BitReader::get reads it. */
  function BitAt(b: bv8, k: nat): Bit
    requires k < 8
  {
    Bit(b & Mask(k) != 0)
  }

  /** The byte BitWriter accumulates from up to eight bits: the i-th bit put
      sets bit position i; positions from |bits| on stay zero. */
  function PackByte(bits: seq<Bit>): bv8
    requires |bits| <= 8
  {
    if bits == [] then 0
    else
      var k := |bits| - 1;
      PackByte(bits[..k]) | (if bits[k] == One then Mask(k) else 0)
  }

  /** Setting bit `j` of a byte changes only position `j`. */
  lemma BitAtOr(x: bv8, j: nat, k: nat)
    requires j < 8 && k < 8
    ensures BitAt(x | Mask(j), k) == (if j == k then One else BitAt(x, k))
  {
  }

  /** Or-ing in bit `b` at position `j`: a one sets that position, a zero
      changes nothing. */
  lemma BitAtPut(x: bv8, j: nat, b: Bit, k: nat)
    requires j < 8 && k < 8
    ensures BitAt(x | (if b == One then Mask(j) else 0), k)
      == (if j == k && b == One then One else BitAt(x, k))
  {
    if b == One {
      BitAtOr(x, j, k);
    } else {
      assert x | 0 == x;
    }
  }

  /** Reading a packed byte gives back the bits put, then zeros. */
  lemma {:induction false} PackByteBits(bits: seq<Bit>, k: nat)
    requires |bits| <= 8 && k < 8
    ensures BitAt(PackByte(bits), k) == if k < |bits| then bits[k] else Zero
  {
    if bits != [] {
      var n := |bits| - 1;
      PackByteBits(bits[..n], k);
      BitAtPut(PackByte(bits[..n]), n, bits[n], k);
    }
  }

  /** Putting one more bit into a partial byte sets exactly its position. */
  lemma PackBytePush(bits: seq<Bit>, b: Bit)
    requires |bits| < 8
    ensures PackByte(bits + [b]) == PackByte(bits) | (if b == One then Mask(|bits|) else 0)
  {
    assert (bits + [b])[..|bits|] == bits;
  }

  /** The byte stream BitWriter produces for a bit sequence: whole groups of
      eight, then the pending 1..7 bits flushed with zero high bits; one
      byte per started group of eight bits. */
  function Pack(bits: seq<Bit>): (r: seq<bv8>)
    ensures |r| == (|bits| + 7) / 8
    decreases |bits|
  {
    if bits == [] then []
    else if |bits| <= 8 then [PackByte(bits)]
    else [PackByte(bits[..8])] + Pack(bits[8..])
  }

  /** The bit sequence BitReader yields from a byte stream. */
  function Unpack(bytes: seq<bv8>): (r: seq<Bit>)
    ensures |r| == 8 * |bytes|
  {
    seq(8 * |bytes|, i requires 0 <= i < 8 * |bytes| => BitAt(bytes[i / 8], i % 8))
  }

  /** Appending one group of 1..8 bits after whole bytes appends one byte. */
  lemma {:induction false} PackAppend(done: seq<Bit>, group: seq<Bit>)
    requires |done| % 8 == 0 && 1 <= |group| <= 8
    ensures Pack(done + group) == Pack(done) + [PackByte(group)]
    decreases |done|
  {
    if done == [] {
      assert done + group == group;
    } else {
      assert (done + group)[..8] == done[..8];
      assert (done + group)[8..] == done[8..] + group;
      PackAppend(done[8..], group);
      if |done| == 8 {
        assert done[8..] == [];
        assert done[..8] == done;
      }
    }
  }

  /** Bit `i` of the packed stream is the `i`-th bit put. */
  lemma {:induction false} PackAt(bits: seq<Bit>, i: nat)
    requires i < |bits|
    ensures i / 8 < |Pack(bits)| && BitAt(Pack(bits)[i / 8], i % 8) == bits[i]
    decreases |bits|
  {
    if |bits| <= 8 {
      PackByteBits(bits, i);
    } else if i < 8 {
      PackByteBits(bits[..8], i);
    } else {
      PackAt(bits[8..], i - 8);
      assert (i - 8) / 8 == i / 8 - 1 && (i - 8) % 8 == i % 8;
    }
  }

  /** The unused high bits of the last packed byte are zero. */
  lemma {:induction false} PackPadding(bits: seq<Bit>, i: nat)
    requires |bits| <= i < 8 * |Pack(bits)|
    ensures BitAt(Pack(bits)[i / 8], i % 8) == Zero
    decreases |bits|
  {
    if |bits| <= 8 {
      PackByteBits(bits, i);
    } else {
      PackPadding(bits[8..], i - 8);
      assert (i - 8) / 8 == i / 8 - 1 && (i - 8) % 8 == i % 8;
    }
  }

  /** Unpacking a packed stream gives back the bits put, followed by fewer
      than eight zero padding bits. */
  lemma UnpackPack(bits: seq<Bit>)
    ensures |bits| <= |Unpack(Pack(bits))| < |bits| + 8
    ensures Unpack(Pack(bits))[..|bits|] == bits
  {
    var u := Unpack(Pack(bits));
    forall i | 0 <= i < |bits| ensures u[i] == bits[i] {
      PackAt(bits, i);
    }
  }

  /** The padding after the bits put reads as zeros. */
  lemma UnpackPackPadding(bits: seq<Bit>)
    ensures forall i :: |bits| <= i < |Unpack(Pack(bits))| ==> Unpack(Pack(bits))[i] == Zero
  {
    var u := Unpack(Pack(bits));
    forall i | |bits| <= i < |u| ensures u[i] == Zero {
      PackPadding(bits, i);
    }
  }

  /** Cutting bytes off the end of a stream cuts its bits off the end. */
  lemma UnpackPrefix(bytes: seq<bv8>, n: nat)
    requires n <= |bytes|
    ensures Unpack(bytes[..n]) == Unpack(bytes)[..8 * n]
  {
  }
}
