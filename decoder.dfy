/**
 * The decoder's side of the Huffman coder: the node arena and the 256-entry
 * lookup table that RecoverTree fills from the tree description, and the
 * facts that let Uncompress use either of them in place of a walk of the
 * tree.
 */
module Decoder {
  import opened Bits
  import opened Tokens
  import opened HuffTree
  import opened Bitstream

  /** An arena node; -1 stands for a null child and for "no symbol" (a branch). */
  datatype DecodeNode = DecodeNode(childA: int, childB: int, symbol: int)

  /** A lookup entry: node -1 with the symbol and its code length, or the arena node reached after 8 bits. */
  datatype LutEntry = LutEntry(node: int, symbol: nat, bits: nat)

  const LutSize: nat := 256

  /** The arena holds t in preorder from index i: a branch's child A right after it, child B after A's nodes. */
  ghost predicate Holds(s: seq<DecodeNode>, i: nat, t: Tree)
    decreases t
  {
    i + Size(t) <= |s| &&
    match t
    case Leaf(x) => s[i] == DecodeNode(-1, -1, x)
    case Branch(a, b) =>
      s[i] == DecodeNode(i + 1, i + 1 + Size(a), -1) && Holds(s, i + 1, a) && Holds(s, i + 1 + Size(a), b)
  }

  /** Holds depends only on the nodes t occupies. */
  lemma {:induction false} HoldsFrame(s: seq<DecodeNode>, s': seq<DecodeNode>, i: nat, t: Tree)
    requires Holds(s, i, t) && |s| == |s'|
    requires forall j :: i <= j < i + Size(t) ==> s[j] == s'[j]
    ensures Holds(s', i, t)
    decreases t
  {
    match t
    case Leaf(_) =>
    case Branch(a, b) =>
      HoldsFrame(s, s', i + 1, a);
      HoldsFrame(s, s', i + 1 + Size(a), b);
  }

  /**
   * The arena after RecoverTree has read t into it from index i: a leaf's
   * node gets its symbol; a branch's children are read first and its node
   * then gets both child indices.
   */
  ghost function Arena(s: seq<DecodeNode>, t: Tree, i: nat): (r: seq<DecodeNode>)
    requires i + Size(t) <= |s|
    ensures |r| == |s|
    decreases t
  {
    match t
    case Leaf(x) => s[i := DecodeNode(-1, -1, x)]
    case Branch(a, b) => Arena(Arena(s, a, i + 1), b, i + 1 + Size(a))[i := DecodeNode(i + 1, i + 1 + Size(a), -1)]
  }

  /** Reading t touches only the nodes t occupies. */
  lemma {:induction false} ArenaFrame(s: seq<DecodeNode>, t: Tree, i: nat, j: nat)
    requires i + Size(t) <= |s| && j < |s| && (j < i || j >= i + Size(t))
    ensures Arena(s, t, i)[j] == s[j]
    decreases t
  {
    match t
    case Leaf(_) =>
    case Branch(a, b) =>
      ArenaFrame(s, a, i + 1, j);
      ArenaFrame(Arena(s, a, i + 1), b, i + 1 + Size(a), j);
  }

  /** A node written in front of t's nodes stays as it is while t is read. */
  lemma {:induction false} ArenaUpdateBelow(s: seq<DecodeNode>, t: Tree, i: nat, k: nat, x: DecodeNode)
    requires i + Size(t) <= |s| && k < i
    ensures Arena(s[k := x], t, i) == Arena(s, t, i)[k := x]
    decreases t
  {
    match t
    case Leaf(_) =>
    case Branch(a, b) =>
      ArenaUpdateBelow(s, a, i + 1, k, x);
      ArenaUpdateBelow(Arena(s, a, i + 1), b, i + 1 + Size(a), k, x);
  }

  /** Whatever t's first node held before, reading t overwrites it. */
  lemma {:induction false} ArenaOverwrite(s: seq<DecodeNode>, t: Tree, i: nat, x: DecodeNode)
    requires i + Size(t) <= |s|
    ensures Arena(s[i := x], t, i) == Arena(s, t, i)
  {
    match t
    case Leaf(_) =>
    case Branch(a, b) =>
      var ib := i + 1 + Size(a);
      ArenaUpdateBelow(s, a, i + 1, i, x);
      ArenaUpdateBelow(Arena(s, a, i + 1), b, ib, i, x);
  }

  /** The arena RecoverTree leaves holds the tree it read. */
  lemma {:induction false} ArenaHolds(s: seq<DecodeNode>, t: Tree, i: nat)
    requires i + Size(t) <= |s|
    ensures Holds(Arena(s, t, i), i, t)
    decreases t
  {
    match t
    case Leaf(_) =>
    case Branch(a, b) =>
      var ib := i + 1 + Size(a);
      var sa := Arena(s, a, i + 1);
      var sb := Arena(sa, b, ib);
      var r := Arena(s, t, i);
      ArenaHolds(s, a, i + 1);
      ArenaHolds(sa, b, ib);
      forall j | i + 1 <= j < ib
        ensures sa[j] == r[j]
      {
        ArenaFrame(sa, b, ib, j);
      }
      HoldsFrame(sa, r, i + 1, a);
      HoldsFrame(sb, r, ib, b);
  }

  /**
   * The lookup entry for t, held from arena index i, when its root is reached
   * after d bits and rest holds the bits of the lookup index that follow: a
   * leaf gives its symbol and code length, a branch with no bits left points
   * at its node.
   */
  function LutEntryFor(t: Tree, i: nat, rest: seq<bool>, d: nat): (e: LutEntry)
    ensures d <= e.bits <= d + |rest|
    ensures e.node >= 0 ==> e.bits == d + |rest|
    decreases t
  {
    match t
    case Leaf(x) => LutEntry(-1, x, d)
    case Branch(a, b) =>
      if rest == [] then LutEntry(i, 0, d)
      else if rest[0] then LutEntryFor(b, i + 1 + Size(a), rest[1..], d + 1)
      else LutEntryFor(a, i + 1, rest[1..], d + 1)
  }

  /** The subtree the walk along rest has reached when LutEntryFor stops. */
  function LutSubtree(t: Tree, rest: seq<bool>): Tree
    decreases t
  {
    match t
    case Leaf(_) => t
    case Branch(a, b) =>
      if rest == [] then t
      else if rest[0] then LutSubtree(b, rest[1..])
      else LutSubtree(a, rest[1..])
  }

  /**
   * A lookup with the bits rest found at q that gives a symbol gives what the
   * walk from q gives: the leaf's symbol and the position after its code.
   */
  lemma {:induction false} LutWalkLeaf(t: Tree, i: nat, enc: seq<byte>, q: nat, rest: seq<bool>, d: nat)
    requires rest == BitsAt(enc, q, |rest|)
    requires LutEntryFor(t, i, rest, d).node < 0
    ensures Walk(t, enc, q) == (LutEntryFor(t, i, rest, d).symbol, q + (LutEntryFor(t, i, rest, d).bits - d))
    decreases t
  {
    match t
    case Leaf(_) =>
    case Branch(a, b) =>
      WalkStep(t, enc, q, rest);
      if rest[0] {
        LutWalkLeaf(b, i + 1 + Size(a), enc, q + 1, rest[1..], d + 1);
      } else {
        LutWalkLeaf(a, i + 1, enc, q + 1, rest[1..], d + 1);
      }
  }

  /**
   * A lookup with the bits rest found at q that gives a node: the walk from q
   * ends where the walk from the subtree reached, |rest| bits further on, ends.
   */
  lemma {:induction false} LutWalkNode(t: Tree, i: nat, enc: seq<byte>, q: nat, rest: seq<bool>, d: nat)
    requires rest == BitsAt(enc, q, |rest|)
    requires LutEntryFor(t, i, rest, d).node >= 0
    ensures Walk(t, enc, q) == Walk(LutSubtree(t, rest), enc, q + |rest|)
    decreases t
  {
    match t
    case Leaf(_) =>
    case Branch(a, b) =>
      if rest != [] {
        WalkStep(t, enc, q, rest);
        if rest[0] {
          LutWalkNode(b, i + 1 + Size(a), enc, q + 1, rest[1..], d + 1);
        } else {
          LutWalkNode(a, i + 1, enc, q + 1, rest[1..], d + 1);
        }
      }
  }

  /** One step of the walk, reading the first of the bits rest found at q. */
  lemma {:induction false} WalkStep(t: Tree, enc: seq<byte>, q: nat, rest: seq<bool>)
    requires t.Branch? && rest != [] && rest == BitsAt(enc, q, |rest|)
    ensures Walk(t, enc, q) == if rest[0] then Walk(t.b, enc, q + 1) else Walk(t.a, enc, q + 1)
    ensures rest[1..] == BitsAt(enc, q + 1, |rest| - 1)
  {
    assert rest[0] == BitAt(enc, q);
  }

  /** A node a lookup entry points at holds the branch the walk has reached. */
  lemma {:induction false} LutHolds(s: seq<DecodeNode>, i: nat, t: Tree, rest: seq<bool>, d: nat)
    requires Holds(s, i, t)
    ensures var e := LutEntryFor(t, i, rest, d);
      e.node >= 0 ==> e.node < |s| && Holds(s, e.node, LutSubtree(t, rest)) && LutSubtree(t, rest).Branch?
    decreases t
  {
    match t
    case Leaf(_) =>
    case Branch(a, b) =>
      if rest != [] {
        if rest[0] {
          LutHolds(s, i + 1 + Size(a), b, rest[1..], d + 1);
        } else {
          LutHolds(s, i + 1, a, rest[1..], d + 1);
        }
      }
  }

  /** Lookup index v belongs to the code `code` of length `bits` (at most 8): its low bits are that code. */
  predicate InSlot(v: nat, code: nat, bits: nat)
  {
    bits <= 8 && v % Pow2(bits) == code
  }

  /** Entry v after RecoverTree placed t, from arena index i, at depth `bits` with code `code`. */
  ghost predicate FilledAt(before: seq<LutEntry>, after: seq<LutEntry>, t: Tree, i: nat, code: nat, bits: nat, v: nat)
  {
    v < |before| && v < |after| &&
    after[v] == if InSlot(v, code, bits) then LutEntryFor(t, i, LowBits(v, 8)[bits..], bits) else before[v]
  }

  /** The table RecoverTree leaves after placing t, from arena index i, at depth `bits` with code `code`. */
  ghost function Filled(before: seq<LutEntry>, t: Tree, i: nat, code: nat, bits: nat): (after: seq<LutEntry>)
    requires |before| == LutSize
    ensures |after| == LutSize
  {
    seq(LutSize, v requires 0 <= v < LutSize =>
      if InSlot(v, code, bits) then LutEntryFor(t, i, LowBits(v, 8)[bits..], bits) else before[v])
  }

  /** The lowest d + 1 bits of v are its lowest d bits and bit d. */
  lemma {:induction false} SplitLow(v: nat, d: nat)
    ensures v % Pow2(d + 1) == v % Pow2(d) + Pow2(d) * ((v / Pow2(d)) % 2)
  {
    var p := Pow2(d);
    var q, r := v / p, v % p;
    var q2, b := q / 2, q % 2;
    assert v == p * q + r;
    assert q == 2 * q2 + b;
    assert v == (2 * p) * q2 + (p * b + r) by {
      assert p * q == p * (2 * q2 + b) == (2 * p) * q2 + p * b;
    }
    assert p * b + r < 2 * p by {
      assert p * b <= p;
    }
    DivModUnique(v, 2 * p, q2, p * b + r);
  }

  /** Bit `bits` of v decides which child's slot of a code v falls in. */
  lemma {:induction false} SlotBit(v: nat, code: nat, bits: nat)
    requires v < LutSize && bits < 8 && code < Pow2(bits)
    ensures InSlot(v, code, bits + 1) <==> InSlot(v, code, bits) && !LowBits(v, 8)[bits]
    ensures InSlot(v, code + Pow2(bits), bits + 1) <==> InSlot(v, code, bits) && LowBits(v, 8)[bits]
  {
    var p := Pow2(bits);
    SplitLow(v, bits);
    ByteBit(v as byte, bits);
    assert v % p < p;
    if LowBits(v, 8)[bits] {
      assert p * ((v / p) % 2) == p;
    } else {
      assert p * ((v / p) % 2) == 0;
    }
  }

  /** Above depth 8, the entries of a branch's slot split between its children's slots by their next bit. */
  lemma {:induction false} SlotOfChild(t: Tree, i: nat, v: nat, code: nat, bits: nat)
    requires t.Branch? && v < LutSize && bits < 8 && code < Pow2(bits)
    ensures !(InSlot(v, code, bits + 1) && InSlot(v, code + Pow2(bits), bits + 1))
    ensures InSlot(v, code, bits) <==> InSlot(v, code, bits + 1) || InSlot(v, code + Pow2(bits), bits + 1)
    ensures InSlot(v, code, bits + 1) ==>
      LutEntryFor(t, i, LowBits(v, 8)[bits..], bits) == LutEntryFor(t.a, i + 1, LowBits(v, 8)[bits + 1..], bits + 1)
    ensures InSlot(v, code + Pow2(bits), bits + 1) ==>
      LutEntryFor(t, i, LowBits(v, 8)[bits..], bits)
      == LutEntryFor(t.b, i + 1 + Size(t.a), LowBits(v, 8)[bits + 1..], bits + 1)
  {
    SlotBit(v, code, bits);
    var rest := LowBits(v, 8)[bits..];
    assert rest[0] == LowBits(v, 8)[bits];
    assert rest[1..] == LowBits(v, 8)[bits + 1..];
  }

  /** One entry under a branch: set by child A, by child B, by the branch itself at depth 8, or left alone. */
  lemma {:induction false} FilledBranchAt(l0: seq<LutEntry>, l1: seq<LutEntry>, l2: seq<LutEntry>, l3: seq<LutEntry>,
                       t: Tree, i: nat, code: nat, bits: nat, v: nat)
    requires t.Branch? && code < Pow2(bits) && |l0| == LutSize && v < LutSize
    requires l1 == if bits == 8 then l0[code := LutEntry(i, 0, 8)] else l0
    requires FilledAt(l1, l2, t.a, i + 1, code, bits + 1, v)
    requires FilledAt(l2, l3, t.b, i + 1 + Size(t.a), code + Pow2(bits), bits + 1, v)
    ensures FilledAt(l0, l3, t, i, code, bits, v)
  {
    if bits < 8 {
      FilledAboveEight(l0, l2, l3, t, i, code, bits, v);
    } else if bits == 8 {
      assert !InSlot(v, code, bits + 1) && !InSlot(v, code + Pow2(bits), bits + 1);
      FilledAtEight(l0, l1, l3, t, i, code, v);
    }
  }

  lemma {:induction false} FilledAboveEight(l0: seq<LutEntry>, l2: seq<LutEntry>, l3: seq<LutEntry>,
                         t: Tree, i: nat, code: nat, bits: nat, v: nat)
    requires t.Branch? && bits < 8 && code < Pow2(bits) && |l0| == LutSize && v < LutSize
    requires FilledAt(l0, l2, t.a, i + 1, code, bits + 1, v)
    requires FilledAt(l2, l3, t.b, i + 1 + Size(t.a), code + Pow2(bits), bits + 1, v)
    ensures FilledAt(l0, l3, t, i, code, bits, v)
  {
    SlotOfChild(t, i, v, code, bits);
    var key := LowBits(v, 8);
    PickEntry(l0[v], l2[v], l3[v], InSlot(v, code, bits + 1), InSlot(v, code + Pow2(bits), bits + 1),
      InSlot(v, code, bits), LutEntryFor(t, i, key[bits..], bits),
      LutEntryFor(t.a, i + 1, key[bits + 1..], bits + 1), LutEntryFor(t.b, i + 1 + Size(t.a), key[bits + 1..], bits + 1));
  }

  /** The entry left by two children that fill disjoint parts of their parent's slot. */
  lemma {:induction false} PickEntry(x0: LutEntry, x2: LutEntry, x3: LutEntry, inA: bool, inB: bool, inT: bool,
                  e: LutEntry, ea: LutEntry, eb: LutEntry)
    requires x2 == (if inA then ea else x0) && x3 == (if inB then eb else x2)
    requires !(inA && inB) && (inT <==> inA || inB)
    requires inA ==> e == ea
    requires inB ==> e == eb
    ensures x3 == if inT then e else x0
  {
  }

  lemma {:induction false} FilledAtEight(l0: seq<LutEntry>, l1: seq<LutEntry>, l3: seq<LutEntry>, t: Tree, i: nat, code: nat, v: nat)
    requires t.Branch? && code < Pow2(8) && |l0| == LutSize && v < LutSize
    requires l1 == l0[code := LutEntry(i, 0, 8)] && v < |l3| && l3[v] == l1[v]
    ensures FilledAt(l0, l3, t, i, code, 8, v)
  {
    Pow2Eight();
    assert InSlot(v, code, 8) <==> v == code;
    assert LowBits(v, 8)[8..] == [];
  }

  /**
   * A branch at depth `bits`: at depth 8 one entry points at its node; above
   * it child A fills the entries whose bit `bits` is 0 and child B those where
   * it is 1; below it nothing is in the table.
   */
  lemma {:induction false} LutFilledBranch(l0: seq<LutEntry>, l1: seq<LutEntry>, l2: seq<LutEntry>, l3: seq<LutEntry>,
                        ta: Tree, tb: Tree, i: nat, ib: nat, code: nat, bits: nat)
    requires code < Pow2(bits) && |l0| == LutSize && ib == i + 1 + Size(ta)
    requires l1 == if bits == 8 then l0[code := LutEntry(i, 0, 8)] else l0
    requires l2 == Filled(l1, ta, i + 1, code, bits + 1)
    requires l3 == Filled(l2, tb, ib, code + Pow2(bits), bits + 1)
    ensures l3 == Filled(l0, Branch(ta, tb), i, code, bits)
  {
    var t := Branch(ta, tb);
    assert t.a == ta && t.b == tb;
    forall v | 0 <= v < LutSize
      ensures l3[v] == Filled(l0, t, i, code, bits)[v]
    {
      FilledBranchAt(l0, l1, l2, l3, t, i, code, bits, v);
    }
  }

  /** Between j * 2^bits and (j + 1) * 2^bits, only j * 2^bits + code has the low bits `code`. */
  lemma {:induction false} SlotIndex(v: nat, j: nat, code: nat, bits: nat)
    requires bits <= 8 && code < Pow2(bits)
    ensures (InSlot(v, code, bits) && j * Pow2(bits) <= v < (j + 1) * Pow2(bits)) <==> v == j * Pow2(bits) + code
  {
    var p := Pow2(bits);
    assert (j + 1) * p == j * p + p;
    BlockIndex(v, p, j, code);
  }

  /** In the block of p numbers from j * p, the one with remainder c is j * p + c. */
  lemma {:induction false} BlockIndex(v: int, p: int, j: int, c: int)
    requires p > 0 && 0 <= c < p
    ensures (v % p == c && j * p <= v < j * p + p) <==> v == j * p + c
  {
    if j * p <= v < j * p + p {
      DivModUnique(v, p, j, v - j * p);
    }
  }

  /** A table of 256 entries holds 2^(8 - bits) copies of a slot of `bits` bits, all inside the table. */
  lemma {:induction false} SlotCopies(j: nat, code: nat, bits: nat)
    requires bits <= 8 && code < Pow2(bits)
    ensures LutSize / Pow2(bits) == Pow2(8 - bits) && Pow2(8 - bits) * Pow2(bits) == LutSize
    ensures j < Pow2(8 - bits) ==> j * Pow2(bits) + code < LutSize
  {
    var p, dups := Pow2(bits), Pow2(8 - bits);
    Pow2Add(bits, 8 - bits);
    Pow2Eight();
    assert p * dups == LutSize;
    DivModUnique(LutSize, p, dups, 0);
    if j < dups {
      assert j * p + code < (j + 1) * p <= dups * p;
    }
  }

  /** The leaf's entries are in place for the first j copies of its slot. */
  ghost predicate LeafFilled(before: seq<LutEntry>, after: seq<LutEntry>, entry: LutEntry, code: nat, bits: nat, j: nat)
  {
    |before| == LutSize && |after| == LutSize &&
    forall v :: 0 <= v < LutSize ==>
      after[v] == if InSlot(v, code, bits) && v < j * Pow2(bits) then entry else before[v]
  }

  /** Writing copy j of the slot. */
  lemma {:induction false} LeafFillStep(before: seq<LutEntry>, mid: seq<LutEntry>, entry: LutEntry, code: nat, bits: nat, j: nat)
    requires bits <= 8 && code < Pow2(bits) && j < Pow2(8 - bits)
    requires LeafFilled(before, mid, entry, code, bits, j)
    ensures j * Pow2(bits) + code < LutSize
    ensures LeafFilled(before, mid[j * Pow2(bits) + code := entry], entry, code, bits, j + 1)
  {
    SlotCopies(j, code, bits);
    var w := j * Pow2(bits) + code;
    var after := mid[w := entry];
    forall v | 0 <= v < LutSize
      ensures after[v] == if InSlot(v, code, bits) && v < (j + 1) * Pow2(bits) then entry else before[v]
    {
      SlotIndex(v, j, code, bits);
    }
  }

  /** All copies written: the table is filled for the leaf. */
  lemma {:induction false} LeafFillDone(before: seq<LutEntry>, after: seq<LutEntry>, symbol: nat, code: nat, bits: nat, i: nat)
    requires bits <= 8 && code < Pow2(bits)
    requires LeafFilled(before, after, LutEntry(-1, symbol, bits), code, bits, Pow2(8 - bits))
    ensures after == Filled(before, Leaf(symbol), i, code, bits)
  {
    SlotCopies(0, code, bits);
  }

  /**
   * RecoverTree's work for a leaf with symbol `symbol` reached with code
   * `code` of length `bits`: at most 8 bits deep, every entry whose low bits
   * are the code gets the symbol and the code length.
   */
  method RecoverLeaf(lut: array<LutEntry>, symbol: nat, code: nat, bits: nat, ghost i: nat)
    requires lut.Length == LutSize && code < Pow2(bits)
    modifies lut
    ensures lut[..] == Filled(old(lut[..]), Leaf(symbol), i, code, bits)
  {
    if bits <= 8 {
      var entry := LutEntry(-1, symbol, bits);
      var p := Pow2(bits);
      SlotCopies(0, code, bits);
      var dups := LutSize / p;
      var j := 0;
      assert LeafFilled(old(lut[..]), lut[..], entry, code, bits, 0);
      while j < dups
        invariant j <= dups
        invariant LeafFilled(old(lut[..]), lut[..], entry, code, bits, j)
      {
        ghost var mid := lut[..];
        LeafFillStep(old(lut[..]), mid, entry, code, bits, j);
        var w := j * p + code;
        lut[w] := entry;
        assert lut[..] == mid[w := entry];
        j := j + 1;
      }
      LeafFillDone(old(lut[..]), lut[..], symbol, code, bits, i);
    }
  }

  /**
   * Reads one node of the tree description at the reader's position into
   * arena slot nodenum, the subtree below it into the slots that follow, and
   * fills the lookup entries of the codes that start with `code` (`bits`
   * bits long). ok is false when the description needs more slots than the
   * arena has; otherwise the reader, the arena and the table hold what
   * ParseTree and Filled say.
   */
  method RecoverTree(nodes: array<DecodeNode>, stream: InBitstream, nodenum: nat, lut: array<LutEntry>,
                     code: nat, bits: nat, ghost p: nat, ghost l0: seq<LutEntry>, ghost s0: seq<DecodeNode>)
      returns (ok: bool, node: nat, next: nat, ghost t: Tree)
    requires nodes.Length == MaxTreeNodes && lut.Length == LutSize
    requires stream.Valid() && stream.Pos() == p && code < Pow2(bits)
    requires lut[..] == l0 && nodes[..] == s0
    modifies nodes, lut, stream
    ensures stream.Valid() && node == nodenum
    ensures ok <==> ParseTree(stream.buf, p, nodenum).Some?
    ensures ok ==> t == ParseTree(stream.buf, p, nodenum).value.tree
    ensures ok ==> stream.Pos() == ParseTree(stream.buf, p, nodenum).value.pos
    ensures ok ==> next == ParseTree(stream.buf, p, nodenum).value.next
    ensures ok ==> nodes[..] == Arena(s0, t, nodenum)
    ensures ok ==> lut[..] == Filled(l0, t, nodenum, code, bits)
    decreases MaxTreeNodes - nodenum, 2
  {
    node, next, t := nodenum, nodenum, Leaf(0);
    if nodenum >= MaxTreeNodes {
      return false, node, next, t;
    }
    nodes[nodenum] := DecodeNode(-1, -1, -1);
    var isLeaf := stream.ReadBit();
    OneBitValue(stream.buf, p);
    if isLeaf == 1 {
      var symbol := stream.ReadBits(SymbolSize);
      nodes[nodenum] := DecodeNode(-1, -1, symbol);
      assert nodes[..] == s0[nodenum := DecodeNode(-1, -1, symbol)];
      RecoverLeaf(lut, symbol, code, bits, nodenum);
      ok, next, t := true, nodenum + 1, Leaf(symbol);
    } else {
      ghost var cleared := nodes[..];
      ok, next, t := RecoverBranch(nodes, stream, nodenum, lut, code, bits, p, l0, cleared);
      if ok {
        ArenaOverwrite(s0, t, nodenum, DecodeNode(-1, -1, -1));
        assert cleared == s0[nodenum := DecodeNode(-1, -1, -1)];
      }
    }
  }

  /** RecoverTree after it has read a 0 bit at p: a branch, with child A and then child B read after it. */
  method RecoverBranch(nodes: array<DecodeNode>, stream: InBitstream, nodenum: nat, lut: array<LutEntry>,
                       code: nat, bits: nat, ghost p: nat, ghost l0: seq<LutEntry>, ghost s0: seq<DecodeNode>)
      returns (ok: bool, next: nat, ghost t: Tree)
    requires nodes.Length == MaxTreeNodes && lut.Length == LutSize && nodenum < MaxTreeNodes
    requires stream.Valid() && stream.Pos() == p + 1 && !BitAt(stream.buf, p) && code < Pow2(bits)
    requires lut[..] == l0 && nodes[..] == s0
    modifies nodes, lut, stream
    ensures stream.Valid()
    ensures ok <==> ParseTree(stream.buf, p, nodenum).Some?
    ensures ok ==> t == ParseTree(stream.buf, p, nodenum).value.tree
    ensures ok ==> stream.Pos() == ParseTree(stream.buf, p, nodenum).value.pos
    ensures ok ==> next == ParseTree(stream.buf, p, nodenum).value.next
    ensures ok ==> nodes[..] == Arena(s0, t, nodenum)
    ensures ok ==> lut[..] == Filled(l0, t, nodenum, code, bits)
    decreases MaxTreeNodes - nodenum, 1
  {
    if bits == 8 {
      Pow2Eight();
      lut[code] := LutEntry(nodenum, 0, 8);
      assert lut[..] == l0[code := LutEntry(nodenum, 0, 8)];
    }
    ghost var l1 := lut[..];
    var okA, childA, nextA, ta := RecoverTree(nodes, stream, nodenum + 1, lut, code, bits + 1, p + 1, l1, s0);
    if !okA {
      ParseBranchFailsA(stream.buf, p, nodenum);
      return false, nextA, ta;
    }
    ok, next, t := RecoverChildB(nodes, stream, nodenum, childA, nextA, lut, code, bits, p, l0, l1, ta, s0);
  }

  /**
   * The rest of a branch once child A is in place in the arena and the table:
   * child B is read after it and the branch's node gets both children.
   */
  method RecoverChildB(nodes: array<DecodeNode>, stream: InBitstream, nodenum: nat, childA: nat, nextA: nat,
                       lut: array<LutEntry>, code: nat, bits: nat,
                       ghost p: nat, ghost l0: seq<LutEntry>, ghost l1: seq<LutEntry>, ghost ta: Tree,
                       ghost s0: seq<DecodeNode>)
      returns (ok: bool, next: nat, ghost t: Tree)
    requires nodes.Length == MaxTreeNodes && lut.Length == LutSize && nodenum < MaxTreeNodes
    requires stream.Valid() && !BitAt(stream.buf, p) && code < Pow2(bits)
    requires |l0| == LutSize && l1 == if bits == 8 then l0[code := LutEntry(nodenum, 0, 8)] else l0
    requires ParseTree(stream.buf, p + 1, nodenum + 1).Some?
    requires ta == ParseTree(stream.buf, p + 1, nodenum + 1).value.tree
    requires stream.Pos() == ParseTree(stream.buf, p + 1, nodenum + 1).value.pos
    requires nextA == ParseTree(stream.buf, p + 1, nodenum + 1).value.next
    requires childA == nodenum + 1 && |s0| == MaxTreeNodes && nodes[..] == Arena(s0, ta, nodenum + 1)
    requires lut[..] == Filled(l1, ta, nodenum + 1, code, bits + 1)
    modifies nodes, lut, stream
    ensures stream.Valid()
    ensures ok <==> ParseTree(stream.buf, p, nodenum).Some?
    ensures ok ==> t == ParseTree(stream.buf, p, nodenum).value.tree
    ensures ok ==> stream.Pos() == ParseTree(stream.buf, p, nodenum).value.pos
    ensures ok ==> next == ParseTree(stream.buf, p, nodenum).value.next
    ensures ok ==> nodes[..] == Arena(s0, t, nodenum)
    ensures ok ==> lut[..] == Filled(l0, t, nodenum, code, bits)
    decreases MaxTreeNodes - nodenum, 0
  {
    ghost var l2, sA := lut[..], nodes[..];
    assert nextA == nodenum + 1 + Size(ta);
    var partial := DecodeNode(childA, -1, -1);
    nodes[nodenum] := partial;
    ghost var sA1 := nodes[..];
    assert sA1 == sA[nodenum := partial];
    ghost var qa := stream.Pos();
    var okB, childB, nextB, tb := RecoverTree(nodes, stream, nextA, lut, code + Pow2(bits), bits + 1, qa, l2, sA1);
    if !okB {
      ParseBranchFailsBOf(stream.buf, p, nodenum, qa, nextA);
      return false, nextB, tb;
    }
    ghost var sB, l3 := nodes[..], lut[..];
    LutFilledBranch(l0, l1, l2, l3, ta, tb, nodenum, nextA, code, bits);
    var whole := DecodeNode(childA, childB, -1);
    nodes[nodenum] := whole;
    ParseBranchOf(stream.buf, p, nodenum, ta, qa, nextA, tb, stream.Pos(), nextB);
    ok, t, next := true, Branch(ta, tb), nextB;
    assert whole == DecodeNode(nodenum + 1, nodenum + 1 + Size(ta), -1);
    BranchArena(s0, sA, sB, ta, tb, nodenum, partial);
    assert nodes[..] == sB[nodenum := whole];
    assert lut[..] == l3;
  }

  /** After child A, the partial node and child B, setting the branch's node gives the branch's arena. */
  lemma {:induction false} BranchArena(s0: seq<DecodeNode>, sA: seq<DecodeNode>, sB: seq<DecodeNode>,
                                       ta: Tree, tb: Tree, i: nat, partial: DecodeNode)
    requires i + Size(Branch(ta, tb)) <= |s0| && sA == Arena(s0, ta, i + 1)
    requires sB == Arena(sA[i := partial], tb, i + 1 + Size(ta))
    ensures sB[i := DecodeNode(i + 1, i + 1 + Size(ta), -1)] == Arena(s0, Branch(ta, tb), i)
  {
    ArenaUpdateBelow(sA, tb, i + 1 + Size(ta), i, partial);
    var whole := DecodeNode(i + 1, i + 1 + Size(ta), -1);
    assert sB[i := whole] == Arena(sA, tb, i + 1 + Size(ta))[i := whole];
  }


  // ---------------------------------------------------------------------------
  // Decoding symbols and the block.

  /** Every entry of the table is the one for its eight bits read from the root. */
  ghost predicate LutForRoot(lut: seq<LutEntry>, t: Tree)
  {
    |lut| == LutSize && forall v :: 0 <= v < LutSize ==> lut[v] == LutEntryFor(t, 0, LowBits(v, 8), 0)
  }

  /** Filling from the root with the empty code reaches every entry, whatever the table held before. */
  lemma {:induction false} FilledFromRoot(before: seq<LutEntry>, t: Tree)
    requires |before| == LutSize
    ensures LutForRoot(Filled(before, t, 0, 0, 0), t)
  {
    forall v | 0 <= v < LutSize
      ensures Filled(before, t, 0, 0, 0)[v] == LutEntryFor(t, 0, LowBits(v, 8), 0)
    {
      assert InSlot(v, 0, 0);
      assert LowBits(v, 8)[0..] == LowBits(v, 8);
    }
  }

  /**
   * The decoder's symbol lookup: the entry for the next eight bits gives the
   * symbol and its code length, or the arena node reached after eight bits,
   * from which the walk goes on one bit at a time. The result is the walk
   * of t from the reader's position.
   */
  method DecodeSymbol(nodes: array<DecodeNode>, lut: array<LutEntry>, stream: InBitstream, ghost t: Tree)
      returns (symbol: nat)
    requires stream.Valid() && Holds(nodes[..], 0, t) && LutForRoot(lut[..], t)
    modifies stream
    ensures stream.Valid()
    ensures symbol == Walk(t, stream.buf, old(stream.Pos())).0
    ensures stream.Pos() == Walk(t, stream.buf, old(stream.Pos())).1
  {
    ghost var q := stream.Pos();
    ghost var rest := BitsAt(stream.buf, q, 8);
    var x := stream.Peek8Bits();
    LowBitsOfValue(rest);
    ValueBound(rest);
    Pow2Eight();
    var e := lut[x];
    assert e == LutEntryFor(t, 0, rest, 0);
    stream.Advance(e.bits);
    assert stream.Pos() == q + e.bits;
    if e.node < 0 {
      LutWalkLeaf(t, 0, stream.buf, q, rest, 0);
      symbol := e.symbol;
    } else {
      LutWalkNode(t, 0, stream.buf, q, rest, 0);
      LutHolds(nodes[..], 0, t, rest, 0);
      ghost var sub := LutSubtree(t, rest);
      assert stream.Pos() == q + 8;
      symbol := WalkArena(nodes, stream, e.node, sub);
    }
  }

  /** The slow path: one bit per branch node of the arena from node, which holds cur, down to a leaf. */
  method WalkArena(nodes: array<DecodeNode>, stream: InBitstream, node: int, ghost cur: Tree)
      returns (symbol: nat)
    requires stream.Valid() && 0 <= node < nodes.Length && Holds(nodes[..], node, cur)
    modifies stream
    ensures stream.Valid()
    ensures symbol == Walk(cur, stream.buf, old(stream.Pos())).0
    ensures stream.Pos() == Walk(cur, stream.buf, old(stream.Pos())).1
  {
    ghost var q := stream.Pos();
    var at := node;
    ghost var sub := cur;
    while nodes[at].symbol < 0
      invariant stream.Valid() && 0 <= at < nodes.Length && Holds(nodes[..], at, sub)
      invariant Walk(cur, stream.buf, q) == Walk(sub, stream.buf, stream.Pos())
      decreases sub
    {
      ghost var p := stream.Pos();
      var bit := stream.ReadBit();
      OneBitValue(stream.buf, p);
      if bit == 1 {
        at, sub := nodes[at].childB, sub.b;
      } else {
        at, sub := nodes[at].childA, sub.a;
      }
    }
    symbol := nodes[at].symbol;
  }

  /** What decoding a block leaves: the bytes produced and the bit position reached. */
  datatype Decoded = Decoded(output: seq<byte>, pos: nat)

  /**
   * What the decoded symbol sym produces when its code ends at bit position
   * q and `remaining` bytes are still to come: a literal symbol gives its
   * byte; a run symbol gives its run of zeros, its length read from the
   * extra bits at q. None for a symbol that is neither or for a run longer
   * than what is left to produce.
   */
  function SymbolOutput(sym: nat, enc: seq<byte>, q: nat, remaining: nat): (r: Option<Decoded>)
    requires remaining > 0
    ensures r.Some? ==> 0 < |r.value.output| <= remaining
  {
    if sym < 256 then Some(Decoded([sym as byte], q))
    else if sym >= NumSymbols then None
    else
      var count := RunBase(sym) + Value(BitsAt(enc, q, ExtraBits(sym)));
      if count > remaining then None
      else Some(Decoded(ZeroBytes(count), q + ExtraBits(sym)))
  }

  /** Decoding one symbol with tree t from bit position p when `remaining` bytes are still to come. */
  function Step(t: Tree, enc: seq<byte>, p: nat, remaining: nat): (r: Option<Decoded>)
    requires remaining > 0
    ensures r.Some? ==> 0 < |r.value.output| <= remaining
  {
    SymbolOutput(Walk(t, enc, p).0, enc, Walk(t, enc, p).1, remaining)
  }

  /** Decoding `remaining` more bytes with tree t from bit position p after acc, symbol by symbol. */
  function DecodeFrom(t: Tree, enc: seq<byte>, p: nat, remaining: nat, acc: seq<byte>): (r: Option<Decoded>)
    ensures r.Some? ==> |r.value.output| == |acc| + remaining && r.value.output[..|acc|] == acc
    decreases remaining
  {
    if remaining == 0 then Some(Decoded(acc, p))
    else match Step(t, enc, p, remaining)
      case None => None
      case Some(d) => DecodeFrom(t, enc, d.pos, remaining - |d.output|, acc + d.output)
  }

  /** DecodeFrom goes on from where the next symbol's Step leaves it, and fails where Step fails. */
  lemma {:induction false} DecodeFromStep(t: Tree, enc: seq<byte>, p: nat, remaining: nat, acc: seq<byte>)
    requires remaining > 0
    ensures Step(t, enc, p, remaining).None? ==> DecodeFrom(t, enc, p, remaining, acc).None?
    ensures Step(t, enc, p, remaining).Some? ==>
      var d := Step(t, enc, p, remaining).value;
      DecodeFrom(t, enc, p, remaining, acc) == DecodeFrom(t, enc, d.pos, remaining - |d.output|, acc + d.output)
  {
  }

  /**
   * What Uncompress produces from enc into a buffer of outSize bytes: the
   * tree description, then outSize bytes of symbols, which must end in the
   * last byte of enc. An empty enc decodes only to an empty block.
   */
  function SpecUncompress(enc: seq<byte>, outSize: nat): (r: Option<seq<byte>>)
    ensures r.Some? ==> |r.value| == outSize
  {
    if |enc| < 1 then (if outSize == 0 then Some([]) else None)
    else match ParseTree(enc, 0, 0)
      case None => None
      case Some(pt) =>
        match DecodeFrom(pt.tree, enc, pt.pos, outSize, [])
        case None => None
        case Some(d) => if (d.pos + 7) / 8 == |enc| then Some(d.output) else None
  }

  /**
   * The zero count of a run-length symbol: its base plus the extra bits that
   * follow its code. known is false for a symbol above the run-length ones.
   */
  method ReadZeroCount(stream: InBitstream, symbol: nat) returns (known: bool, count: nat)
    requires stream.Valid() && symbol >= 256
    modifies stream
    ensures stream.Valid()
    ensures known <==> symbol < NumSymbols
    ensures known ==> count == RunBase(symbol) + Value(BitsAt(stream.buf, old(stream.Pos()), ExtraBits(symbol)))
    ensures known ==> stream.Pos() == old(stream.Pos()) + ExtraBits(symbol)
  {
    known := true;
    if symbol == SymTwoZeros {
      count := 2;
    } else if symbol == SymUpTo6Zeros {
      var x := stream.ReadBits(2);
      count := x + 3;
    } else if symbol == SymUpTo22Zeros {
      var x := stream.ReadBits(4);
      count := x + 7;
    } else if symbol == SymUpTo278Zeros {
      var x := stream.ReadBits(8);
      count := x + 23;
    } else if symbol == SymUpTo16662Zeros {
      var x := stream.ReadBits(14);
      count := x + 279;
    } else {
      known, count := false, 0;
    }
    // With no extra bits the stream has not moved, and reads the empty sequence.
    assert ExtraBits(symbol) == 0 ==> BitsAt(stream.buf, old(stream.Pos()), 0) == [];
  }

  /** Writes count zeros into out from index from on. */
  method FillZeros(out: array<byte>, from: nat, count: nat)
    requires from + count <= out.Length
    modifies out
    ensures out[..from + count] == old(out[..from]) + ZeroBytes(count)
    ensures out[from + count..] == old(out[from + count..])
  {
    var k := from;
    while k < from + count
      invariant from <= k <= from + count
      invariant out[..from] == old(out[..from])
      invariant forall j :: from <= j < k ==> out[j] == 0
      invariant out[from + count..] == old(out[from + count..])
    {
      out[k] := 0;
      k := k + 1;
    }
    assert out[..from + count] == out[..from] + ZeroBytes(count);
  }
}
