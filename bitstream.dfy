/**
 * The LSB-first bit reader and writer of the Huffman coder
 * (InBitstream and OutBitstream in src/huffman.cpp).
 *
 * A stream position is a (byte, bit) pair; Pos() is the same position counted
 * in bits.  The reader holds the input as an immutable sequence, the writer
 * writes into the caller's array in place.
 */
module Bitstream {
  import opened Bits

  class InBitstream {
    const buf: seq<byte>
    var bytePos: nat
    var bitPos: nat

    ghost predicate Valid()
      reads this
    {
      bitPos < 8
    }

    function Pos(): nat
      reads this
    {
      8 * bytePos + bitPos
    }

    constructor (buf: seq<byte>)
      ensures this.buf == buf && Valid() && Pos() == 0
    {
      this.buf := buf;
      bytePos, bitPos := 0, 0;
    }

    /** Reads the next bit and moves on by one position. */
    method ReadBit() returns (x: nat)
      requires Valid()
      modifies this
      ensures Valid() && Pos() == old(Pos()) + 1
      ensures x == Value(BitsAt(buf, old(Pos()), 1))
    {
      var bit := bitPos;
      x := (ByteAt(buf, bytePos) / Pow2(bit)) % 2;
      ByteChunk(buf, Pos(), 1);
      bit := (bit + 1) % 8;
      if bit == 0 {
        bytePos := bytePos + 1;
      }
      bitPos := bit;
    }

    /** Reads the next n bits as a number, the first bit read being the least significant. */
    method ReadBits(n: nat) returns (x: nat)
      requires Valid() && n <= 32
      modifies this
      ensures Valid() && Pos() == old(Pos()) + n
      ensures x == Value(BitsAt(buf, old(Pos()), n))
    {
      x := 0;
      var bp, bit := bytePos, bitPos;
      var bits, shift := n, 0;
      while bits > 0
        invariant bit < 8 && shift + bits == n
        invariant 8 * bp + bit == old(Pos()) + shift
        invariant x == Value(BitsAt(buf, old(Pos()), shift))
      {
        var k := if bits < 8 - bit then bits else 8 - bit;
        bits := bits - k;
        var chunk := (ByteAt(buf, bp) / Pow2(bit)) % Pow2(k);
        ReadStep(old(Pos()), shift, bp, bit, k);
        // x has no bits at or above `shift`, so `x | (chunk << shift)` is a sum.
        x := x + chunk * Pow2(shift);
        shift := shift + k;
        bit := bit + k;
        if bit >= 8 {
          bit := bit - 8;
          bp := bp + 1;
        }
      }
      bitPos, bytePos := bit, bp;
    }

    lemma {:induction false} ReadStep(p0: nat, shift: nat, bp: nat, bit: nat, k: nat)
      requires bit < 8 && bit + k <= 8 && 8 * bp + bit == p0 + shift
      ensures Value(BitsAt(buf, p0, shift + k))
           == Value(BitsAt(buf, p0, shift)) + ((ByteAt(buf, bp) / Pow2(bit)) % Pow2(k)) * Pow2(shift)
    {
      var p := 8 * bp + bit;
      DivModUnique(p, 8, bp, bit);
      ByteChunk(buf, p, k);
      var chunk := (ByteAt(buf, bp) / Pow2(bit)) % Pow2(k);
      assert Value(BitsAt(buf, p0 + shift, k)) == chunk;
      ValueBitsAtSplit(buf, p0, shift, k);
      assert Pow2(shift) * chunk == chunk * Pow2(shift);
    }

    /** The next eight bits as a number, without moving; past the end of the buffer bits read as 0. */
    method Peek8Bits() returns (x: nat)
      requires Valid()
      ensures x == Value(BitsAt(buf, Pos(), 8))
    {
      var lo, hi := ByteAt(buf, bytePos), ByteAt(buf, bytePos + 1);
      x := ((hi * 256 + lo) / Pow2(bitPos)) % 256;
      assert Pos() / 8 == bytePos && Pos() % 8 == bitPos;
      EightBits(buf, Pos());
    }

    /** Moves on by n bits without reading. */
    method Advance(n: nat)
      requires Valid()
      modifies this
      ensures Valid() && Pos() == old(Pos()) + n
    {
      var p := bitPos + n;
      bitPos := p % 8;
      bytePos := bytePos + p / 8;
    }

    /** The reader stands at the end of the buffer or inside its last byte. */
    predicate AtTheEnd()
      requires Valid()
      reads this
      ensures AtTheEnd() <==> (Pos() + 7) / 8 == |buf|
    {
      (bytePos == |buf| && bitPos == 0) || (bytePos == |buf| - 1 && bitPos > 0)
    }
  }

  class OutBitstream {
    const buf: array<byte>
    var bytePos: nat
    var bitPos: nat

    ghost predicate Valid()
      reads this
    {
      bitPos < 8 && Pos() <= 8 * buf.Length
    }

    function Pos(): nat
      reads this
    {
      8 * bytePos + bitPos
    }

    /** The bits written so far. */
    ghost function Written(): seq<bool>
      reads this, buf
    {
      BitsAt(buf[..], 0, Pos())
    }

    constructor (buf: array<byte>)
      ensures this.buf == buf && Valid() && Pos() == 0
    {
      this.buf := buf;
      bytePos, bitPos := 0, 0;
    }

    /** Appends the low n bits of x, least significant first; no bit outside them changes. */
    method WriteBits(x: nat, n: nat)
      requires Valid() && Pos() + n <= 8 * buf.Length
      modifies this, buf
      ensures Valid() && Pos() == old(Pos()) + n
      ensures Written() == old(Written()) + LowBits(x, n)
      ensures SameFrom(old(buf[..]), buf[..], Pos())
    {
      var v, bits := x, n;
      var bp, bit := bytePos, bitPos;
      ghost var buf0 := buf[..];
      while bits > 0
        invariant 0 <= bit < 8 && 0 <= bits && 8 * bp + bit + bits == old(Pos()) + n
        invariant old(Written()) + LowBits(x, n) == BitsAt(buf[..], 0, 8 * bp + bit) + LowBits(v, bits)
        invariant SameFrom(buf0, buf[..], 8 * bp + bit)
      {
        ghost var p := 8 * bp + bit;
        assert p / 8 == bp && p % 8 == bit by {
          DivModUnique(p, 8, bp, bit);
        }
        WriteStep(buf[..], buf0, p, v, bits, old(Written()) + LowBits(x, n));
        buf[bp] := SetBit(buf[bp], bit, v % 2 == 1);
        v := v / 2;
        if bit == 7 {
          bit, bp := 0, bp + 1;
        } else {
          bit := bit + 1;
        }
        bits := bits - 1;
      }
      bytePos, bitPos := bp, bit;
    }

    /** One turn of WriteBits's loop: bit p becomes the lowest bit of v, and the bits after it are untouched. */
    static lemma WriteStep(before: seq<byte>, buf0: seq<byte>, p: nat, v: nat, bits: nat, total: seq<bool>)
      requires p / 8 < |before| && bits > 0
      requires total == BitsAt(before, 0, p) + LowBits(v, bits)
      requires SameFrom(buf0, before, p)
      ensures var after := before[p / 8 := SetBit(before[p / 8], p % 8, v % 2 == 1)];
        && total == BitsAt(after, 0, p + 1) + LowBits(v / 2, bits - 1)
        && SameFrom(buf0, after, p + 1)
    {
      var b := v % 2 == 1;
      WriteOneBit(before, p, b);
      var after := before[p / 8 := SetBit(before[p / 8], p % 8, b)];
      forall i | p + 1 <= i < 8 * |buf0| ensures SameBit(buf0, after, i) {
        assert SameBit(buf0, before, i);
      }
      assert LowBits(v, bits) == [b] + LowBits(v / 2, bits - 1);
      AppendAssoc(BitsAt(before, 0, p), [b], LowBits(v / 2, bits - 1));
    }

    /** The number of bytes written, counting a partly written last byte. */
    function Size(): (r: nat)
      requires Valid()
      reads this
      ensures r == (Pos() + 7) / 8
    {
      if bitPos > 0 then bytePos + 1 else bytePos
    }
  }
}
