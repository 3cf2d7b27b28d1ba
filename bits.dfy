/**
 * Bit-level vocabulary shared by the bitstream, encoder and decoder models.
 *
 * A byte buffer is read as one long bit sequence: bit i of the buffer is bit
 * (i % 8) of byte (i / 8), least-significant bit first.  Positions past the
 * end of a buffer read as zero bits.  The source's shifts and masks are
 * written here as multiplication, division and remainder by powers of two,
 * and `|` of disjoint bit ranges as `+`.
 */
module Bits {

  type byte = x: int | 0 <= x < 256

  function Pow2(n: nat): (r: nat)
    ensures r >= 1
  {
    if n == 0 then 1 else 2 * Pow2(n - 1)
  }

  /** The number whose binary digits are s, least-significant digit first. */
  function Value(s: seq<bool>): nat
  {
    if s == [] then 0 else (if s[0] then 1 else 0) + 2 * Value(s[1..])
  }

  /** The low n binary digits of x, least-significant digit first. */
  function LowBits(x: nat, n: nat): (r: seq<bool>)
    ensures |r| == n
  {
    if n == 0 then [] else [x % 2 == 1] + LowBits(x / 2, n - 1)
  }

  /** Byte i of a buffer that is padded with zero bytes past its end. */
  function ByteAt(buf: seq<byte>, i: nat): byte
  {
    if i < |buf| then buf[i] else 0
  }

  /** Bit i of a buffer, least-significant bit of each byte first. */
  function BitAt(buf: seq<byte>, i: nat): bool
  {
    TestBit(ByteAt(buf, i / 8), i % 8)
  }

  /** Bit j of x. */
  function TestBit(x: nat, j: nat): bool
  {
    if j == 0 then x % 2 == 1 else TestBit(x / 2, j - 1)
  }

  lemma {:induction false} TestBitLowBits(x: nat, n: nat, j: nat)
    requires j < n
    ensures TestBit(x, j) == LowBits(x, n)[j]
  {
    if j > 0 {
      TestBitLowBits(x / 2, n - 1, j - 1);
    }
  }

  /** The n bits of a buffer starting at bit position p. */
  function BitsAt(buf: seq<byte>, p: nat, n: nat): (r: seq<bool>)
    ensures |r| == n
    ensures forall j :: 0 <= j < n ==> r[j] == BitAt(buf, p + j)
  {
    seq(n, j requires 0 <= j < n => BitAt(buf, p + j))
  }

  // ---------------------------------------------------------------------------
  // Arithmetic facts.

  lemma {:induction false} DivModUnique(x: int, d: int, q: int, r: int)
    requires d > 0 && 0 <= r < d && x == d * q + r
    ensures x / d == q && x % d == r
  {
    var q', r' := x / d, x % d;
    assert d * (q' - q) == r - r';
    if q' != q {
      MulAtLeast(d, q' - q);
    }
  }

  lemma {:induction false} MulAtLeast(d: int, m: int)
    requires d > 0 && m != 0
    ensures d * m >= d || d * m <= -d
  {
  }

  lemma {:induction false} Pow2Eight()
    ensures Pow2(8) == 256
  {
  }

  lemma {:induction false} Pow2Add(a: nat, b: nat)
    ensures Pow2(a + b) == Pow2(a) * Pow2(b)
  {
    if a > 0 {
      Pow2Add(a - 1, b);
    }
  }

  /** A single bit read as a number. */
  lemma {:induction false} OneBitValue(buf: seq<byte>, p: nat)
    ensures Value(BitsAt(buf, p, 1)) == if BitAt(buf, p) then 1 else 0
  {
    var s := BitsAt(buf, p, 1);
    assert s[1..] == [];
  }

  lemma {:induction false} ValueBound(s: seq<bool>)
    ensures Value(s) < Pow2(|s|)
  {
    if s != [] {
      ValueBound(s[1..]);
    }
  }

  lemma {:induction false} AppendAssoc<T>(a: seq<T>, b: seq<T>, c: seq<T>)
    ensures (a + b) + c == a + (b + c)
  {
  }

  lemma {:induction false} ValueAppend(s: seq<bool>, t: seq<bool>)
    ensures Value(s + t) == Value(s) + Pow2(|s|) * Value(t)
  {
    if s == [] {
      assert s + t == t;
    } else {
      var u := s + t;
      assert u[0] == s[0] && u[1..] == s[1..] + t;
      ValueAppend(s[1..], t);
      Double(Pow2(|s| - 1), Value(t));
    }
  }

  /** Appending one bit adds 2^|s| when it is set. */
  lemma {:induction false} ValueAppendBit(s: seq<bool>, b: bool)
    ensures Value(s + [b]) == Value(s) + if b then Pow2(|s|) else 0
  {
    ValueAppend(s, [b]);
    assert [b][1..] == [];
    var p := Pow2(|s|);
    if b {
      assert Value([b]) == 1;
      assert p * 1 == p;
    } else {
      assert Value([b]) == 0;
      assert p * 0 == 0;
    }
  }

  lemma {:induction false} Double(p: nat, v: nat)
    ensures 2 * (p * v) == (2 * p) * v
  {
  }

  /** Reading back the low n bits of x gives x modulo 2^n. */
  lemma {:induction false} ValueOfLowBits(x: nat, n: nat)
    ensures Value(LowBits(x, n)) == x % Pow2(n)
  {
    if n > 0 {
      ValueOfLowBits(x / 2, n - 1);
      var low := LowBits(x, n);
      assert low[1..] == LowBits(x / 2, n - 1);
      assert Value(low) == x % 2 + 2 * ((x / 2) % Pow2(n - 1));
      ModDouble(x, Pow2(n - 1));
    }
  }

  /** Modulo 2p, x is its lowest binary digit plus twice x / 2 modulo p. */
  lemma {:induction false} ModDouble(x: nat, p: nat)
    requires p >= 1
    ensures x % (2 * p) == x % 2 + 2 * ((x / 2) % p)
  {
    var q, r := x / 2, x % 2;
    var m, s := q / p, q % p;
    assert x == (2 * p) * m + (2 * s + r) by {
      assert q == p * m + s;
      assert x == 2 * q + r;
    }
    DivModUnique(x, 2 * p, m, 2 * s + r);
  }

  lemma {:induction false} ValueOfLowBitsSmall(x: nat, n: nat)
    requires x < Pow2(n)
    ensures Value(LowBits(x, n)) == x
  {
    ValueOfLowBits(x, n);
    DivModUnique(x, Pow2(n), 0, x);
  }

  /** Writing the digits of a bit sequence's value gives the sequence back. */
  lemma {:induction false} LowBitsOfValue(s: seq<bool>)
    ensures LowBits(Value(s), |s|) == s
  {
    if s != [] {
      LowBitsOfValue(s[1..]);
    }
  }

  /** A byte is the value of its eight bits. */
  lemma {:induction false} ByteValue(b: byte)
    ensures Value(LowBits(b, 8)) == b
  {
    ValueOfLowBitsSmall(b, 8);
  }

  /** Dividing by 2^j and taking the remainder by 2^k extracts bits j .. j+k. */
  lemma {:induction false} ValueSlice(s: seq<bool>, j: nat, k: nat)
    requires j + k <= |s|
    ensures (Value(s) / Pow2(j)) % Pow2(k) == Value(s[j..j + k])
  {
    ValueSplit(s, j);
    ValueSplit(s[j..], k);
    assert s[j..][..k] == s[j..j + k];
  }

  /** Below 2^j are the first j digits, above it the rest. */
  lemma {:induction false} ValueSplit(s: seq<bool>, j: nat)
    requires j <= |s|
    ensures Value(s) / Pow2(j) == Value(s[j..]) && Value(s) % Pow2(j) == Value(s[..j])
  {
    var lo, hi := s[..j], s[j..];
    assert s == lo + hi;
    ValueAppend(lo, hi);
    ValueBound(lo);
    DivModUnique(Value(s), Pow2(j), Value(hi), Value(lo));
  }

  /** Changing digit j of a bit sequence changes its value by 2^j. */
  lemma {:induction false} ValueUpdate(s: seq<bool>, j: nat, v: bool)
    requires j < |s|
    ensures Value(s[j := v]) + (if s[j] then Pow2(j) else 0)
         == Value(s) + (if v then Pow2(j) else 0)
  {
    if j > 0 {
      assert s[j := v][1..] == s[1..][j - 1 := v];
      ValueUpdate(s[1..], j - 1, v);
    }
  }

  /** Bit j of byte b, as the source extracts it with `(b >> j) & 1`. */
  lemma {:induction false} ByteBit(b: byte, j: nat)
    requires j < 8
    ensures (b / Pow2(j)) % 2 == (if LowBits(b, 8)[j] then 1 else 0)
  {
    ByteValue(b);
    ValueSlice(LowBits(b, 8), j, 1);
    assert LowBits(b, 8)[j..j + 1] == [LowBits(b, 8)[j]];
  }

  /** Bit i of a buffer is bit i % 8 of the byte that holds it. */
  lemma {:induction false} BitAtByte(buf: seq<byte>, i: nat)
    ensures BitAt(buf, i) == LowBits(ByteAt(buf, i / 8), 8)[i % 8]
  {
    TestBitLowBits(ByteAt(buf, i / 8), 8, i % 8);
  }

  /** Setting bit j of byte b to v, as `(b & ~(1 << j)) | (v << j)` does. */
  function SetBit(b: byte, j: nat, v: bool): (r: byte)
    requires j < 8
    ensures LowBits(r, 8) == LowBits(b, 8)[j := v]
  {
    ByteBit(b, j);
    ByteValue(b);
    ValueUpdate(LowBits(b, 8), j, v);
    ValueBound(LowBits(b, 8)[j := v]);
    LowBitsOfValue(LowBits(b, 8)[j := v]);
    b - ((b / Pow2(j)) % 2) * Pow2(j) + (if v then Pow2(j) else 0)
  }

  // ---------------------------------------------------------------------------
  // The buffer's bit view.

  lemma {:induction false} BitsAtSplit(buf: seq<byte>, p: nat, a: nat, b: nat)
    ensures BitsAt(buf, p, a + b) == BitsAt(buf, p, a) + BitsAt(buf, p + a, b)
  {
  }

  lemma {:induction false} ValueBitsAtSplit(buf: seq<byte>, p: nat, a: nat, b: nat)
    ensures Value(BitsAt(buf, p, a + b)) == Value(BitsAt(buf, p, a)) + Pow2(a) * Value(BitsAt(buf, p + a, b))
  {
    BitsAtSplit(buf, p, a, b);
    ValueAppend(BitsAt(buf, p, a), BitsAt(buf, p + a, b));
  }

  /** When bits p .. p+n of a buffer are s + t, bits p .. p+|s| are s and the rest are t. */
  lemma {:induction false} BitsAtAppend(buf: seq<byte>, p: nat, s: seq<bool>, t: seq<bool>)
    requires BitsAt(buf, p, |s + t|) == s + t
    ensures BitsAt(buf, p, |s|) == s && BitsAt(buf, p + |s|, |t|) == t
  {
    BitsAtSplit(buf, p, |s|, |t|);
    assert BitsAt(buf, p, |s + t|)[..|s|] == BitsAt(buf, p, |s|);
  }

  /** The eight bits starting at a byte boundary are that byte's bits. */
  lemma {:induction false} BitsOfByte(buf: seq<byte>, q: nat)
    ensures BitsAt(buf, 8 * q, 8) == LowBits(ByteAt(buf, q), 8)
  {
    forall j | 0 <= j < 8
      ensures BitsAt(buf, 8 * q, 8)[j] == LowBits(ByteAt(buf, q), 8)[j]
    {
      BitInByte(buf, q, j);
    }
  }

  lemma {:induction false} BitInByte(buf: seq<byte>, q: nat, j: nat)
    requires j < 8
    ensures BitAt(buf, 8 * q + j) == LowBits(ByteAt(buf, q), 8)[j]
  {
    DivModUnique(8 * q + j, 8, q, j);
    BitAtByte(buf, 8 * q + j);
  }

  /** Bits j .. j+k of the byte that holds position p = 8q + j. */
  lemma {:induction false} BitsInByte(buf: seq<byte>, p: nat, k: nat)
    requires p % 8 + k <= 8
    ensures BitsAt(buf, p, k) == LowBits(ByteAt(buf, p / 8), 8)[p % 8..p % 8 + k]
  {
    var lb := LowBits(ByteAt(buf, p / 8), 8);
    var slice := lb[p % 8..p % 8 + k];
    forall i | 0 <= i < k
      ensures BitsAt(buf, p, k)[i] == slice[i]
    {
      SameByte(p, i);
      BitAtByte(buf, p + i);
      assert slice[i] == lb[p % 8 + i];
    }
    assert |BitsAt(buf, p, k)| == |slice|;
  }

  lemma {:induction false} SameByte(p: nat, i: nat)
    requires p % 8 + i < 8
    ensures (p + i) / 8 == p / 8 && (p + i) % 8 == p % 8 + i
  {
    DivModUnique(p + i, 8, p / 8, p % 8 + i);
  }

  /** k bits that stay inside one byte are that byte shifted down and masked. */
  lemma {:induction false} ByteChunk(buf: seq<byte>, p: nat, k: nat)
    requires p % 8 + k <= 8
    ensures Value(BitsAt(buf, p, k)) == (ByteAt(buf, p / 8) / Pow2(p % 8)) % Pow2(k)
  {
    BitsInByte(buf, p, k);
    ByteValue(ByteAt(buf, p / 8));
    ValueSlice(LowBits(ByteAt(buf, p / 8), 8), p % 8, k);
  }

  /** The eight bits at p are the 16-bit window of two bytes shifted down by p % 8. */
  lemma {:induction false} EightBits(buf: seq<byte>, p: nat)
    ensures Value(BitsAt(buf, p, 8))
         == ((ByteAt(buf, p / 8 + 1) * 256 + ByteAt(buf, p / 8)) / Pow2(p % 8)) % 256
  {
    var q, j := p / 8, p % 8;
    var lo, hi := ByteAt(buf, q), ByteAt(buf, q + 1);
    var w := LowBits(lo, 8) + LowBits(hi, 8);
    var x := hi as int * 256 + lo;
    assert Value(w) == x by {
      TwoBytes(lo, hi);
    }
    assert Value(BitsAt(buf, p, 8)) == Value(w[j..j + 8]) by {
      EightBitsWindow(buf, q, j);
    }
    assert Value(w[j..j + 8]) == (Value(w) / Pow2(j)) % 256 by {
      ValueSlice(w, j, 8);
      Pow2Eight();
    }
  }

  lemma {:induction false} TwoBytes(lo: byte, hi: byte)
    ensures Value(LowBits(lo, 8) + LowBits(hi, 8)) == hi as int * 256 + lo
  {
    ValueAppend(LowBits(lo, 8), LowBits(hi, 8));
    ByteValue(lo);
    ByteValue(hi);
    Pow2Eight();
  }

  lemma {:induction false} EightBitsWindow(buf: seq<byte>, q: nat, j: nat)
    requires j < 8
    ensures BitsAt(buf, 8 * q + j, 8)
         == (LowBits(ByteAt(buf, q), 8) + LowBits(ByteAt(buf, q + 1), 8))[j..j + 8]
  {
    var w := LowBits(ByteAt(buf, q), 8) + LowBits(ByteAt(buf, q + 1), 8);
    var slice := w[j..j + 8];
    forall i | 0 <= i < 8
      ensures BitsAt(buf, 8 * q + j, 8)[i] == slice[i]
    {
      if j + i < 8 {
        BitInByte(buf, q, j + i);
      } else {
        BitInByte(buf, q + 1, j + i - 8);
      }
    }
  }

  /** Replacing byte q by a byte whose bit j is v changes exactly bit 8q + j. */
  lemma {:induction false} BitAfterSetBit(buf: seq<byte>, q: nat, j: nat, v: bool, i: nat)
    requires q < |buf| && j < 8
    ensures BitAt(buf[q := SetBit(buf[q], j, v)], i)
         == if i == 8 * q + j then v else BitAt(buf, i)
  {
    BitAtByte(buf, i);
    BitAtByte(buf[q := SetBit(buf[q], j, v)], i);
    if i / 8 == q {
      assert i == 8 * q + i % 8;
    }
  }

  /** Setting the bit at position p, as one step of the writer's loop does. */
  lemma {:induction false} WriteOneBit(buf: seq<byte>, p: nat, v: bool)
    requires p / 8 < |buf|
    ensures var buf' := buf[p / 8 := SetBit(buf[p / 8], p % 8, v)];
      && BitsAt(buf', 0, p + 1) == BitsAt(buf, 0, p) + [v]
      && forall i :: i != p ==> BitAt(buf', i) == BitAt(buf, i)
  {
    var buf' := buf[p / 8 := SetBit(buf[p / 8], p % 8, v)];
    forall i | true
      ensures BitAt(buf', i) == if i == p then v else BitAt(buf, i)
    {
      BitAfterSetBit(buf, p / 8, p % 8, v, i);
    }
    assert BitsAt(buf', 0, p + 1) == BitsAt(buf, 0, p) + [v];
  }

  /** Bit i is the same in both buffers. */
  ghost predicate SameBit(a: seq<byte>, b: seq<byte>, i: nat)
  {
    BitAt(a, i) == BitAt(b, i)
  }

  /** From bit p on, buffer b holds the same bits as buffer a. */
  ghost predicate SameFrom(a: seq<byte>, b: seq<byte>, p: nat)
  {
    |a| == |b| && forall i :: p <= i < 8 * |a| ==> SameBit(a, b, i)
  }

  lemma {:induction false} SameFromTrans(a: seq<byte>, b: seq<byte>, c: seq<byte>, p: nat, q: nat)
    requires SameFrom(a, b, p) && SameFrom(b, c, q) && p <= q
    ensures SameFrom(a, c, q)
  {
    forall i | q <= i < 8 * |a| ensures SameBit(a, c, i) {
      assert SameBit(a, b, i) && SameBit(b, c, i);
    }
  }

  /** A byte whose eight bits all lie at or after p is the same in both buffers. */
  lemma {:induction false} SameFromBytes(a: seq<byte>, b: seq<byte>, p: nat, q: nat)
    requires SameFrom(a, b, p) && p <= 8 * q && q < |a|
    ensures a[q] == b[q]
  {
    BitsOfByte(a, q);
    BitsOfByte(b, q);
    forall j | 0 <= j < 8 ensures BitsAt(a, 8 * q, 8)[j] == BitsAt(b, 8 * q, 8)[j] {
      assert SameBit(a, b, 8 * q + j);
    }
    assert BitsAt(a, 8 * q, 8) == BitsAt(b, 8 * q, 8);
    ByteValue(a[q]);
    ByteValue(b[q]);
  }

  /** The bytes from the first one that holds no bit before p on are the same in both buffers. */
  lemma {:induction false} SameFromTail(a: seq<byte>, b: seq<byte>, p: nat, n: nat)
    requires SameFrom(a, b, p) && p <= 8 * n <= 8 * |a|
    ensures a[n..] == b[n..]
  {
    forall q | n <= q < |a| ensures a[q] == b[q] {
      SameFromBytes(a, b, p, q);
    }
  }
}
