/**
 * The Huffman tree as a value: its depth-first description (written by
 * StoreTree, read back by RecoverTree), the code of each leaf, and the
 * bit-by-bit walk the decoder performs.
 */
module HuffTree {
  import opened Bits
  import opened Tokens

  datatype Option<T> = None | Some(value: T)

  /** Child A is reached with a 0 bit, child B with a 1 bit. */
  datatype Tree = Leaf(symbol: nat) | Branch(a: Tree, b: Tree)

  /** Branch nodes plus leaf nodes of the largest tree over the alphabet. */
  const MaxTreeNodes: nat := 2 * NumSymbols - 1

  function Size(t: Tree): nat
  {
    match t
    case Leaf(_) => 1
    case Branch(a, b) => 1 + Size(a) + Size(b)
  }

  function Leaves(t: Tree): multiset<nat>
  {
    match t
    case Leaf(s) => multiset{s}
    case Branch(a, b) => Leaves(a) + Leaves(b)
  }

  /** Every leaf symbol is below `bound`. */
  ghost predicate SymbolsBelow(t: Tree, bound: nat)
  {
    forall s :: s in Leaves(t) ==> s < bound
  }

  /** No symbol is at two leaves. */
  ghost predicate DistinctLeaves(t: Tree)
  {
    forall s :: Leaves(t)[s] <= 1
  }

  lemma {:induction false} DistinctChildren(t: Tree)
    requires t.Branch? && DistinctLeaves(t)
    ensures DistinctLeaves(t.a) && DistinctLeaves(t.b)
    ensures forall s :: s in Leaves(t.a) ==> s !in Leaves(t.b)
  {
    forall s
      ensures Leaves(t.a)[s] <= 1 && Leaves(t.b)[s] <= 1 && (s in Leaves(t.a) ==> s !in Leaves(t.b))
    {
      assert Leaves(t)[s] == Leaves(t.a)[s] + Leaves(t.b)[s];
    }
  }

  /** A leaf is 1 followed by its 9-bit symbol; a branch is 0 followed by child A and then child B. */
  function Serialize(t: Tree): seq<bool>
  {
    match t
    case Leaf(s) => [true] + LowBits(s, SymbolSize)
    case Branch(a, b) => [false] + Serialize(a) + Serialize(b)
  }

  /** The branch bits from the root down to the first leaf that carries s. */
  function Path(t: Tree, s: nat): seq<bool>
    requires s in Leaves(t)
  {
    match t
    case Leaf(_) => []
    case Branch(a, b) => if s in Leaves(a) then [false] + Path(a, s) else [true] + Path(b, s)
  }

  /** The code the encoder gives s: its path, or the one bit 0 when the tree is a single leaf. */
  function Code(t: Tree, s: nat): seq<bool>
    requires s in Leaves(t)
  {
    if t.Leaf? then [false] else Path(t, s)
  }

  /** The decoder's walk from t, reading bits from position p: the leaf symbol and the position after it. */
  function Walk(t: Tree, enc: seq<byte>, p: nat): (nat, nat)
  {
    match t
    case Leaf(s) => (s, p)
    case Branch(a, b) => if BitAt(enc, p) then Walk(b, enc, p + 1) else Walk(a, enc, p + 1)
  }

  datatype Parsed = Parsed(tree: Tree, pos: nat, next: nat)

  /**
   * The tree that RecoverTree reads at bit position p while n nodes of the
   * arena are in use, the position after it and the nodes then in use; None
   * when the description needs more than MaxTreeNodes nodes (the source then
   * writes past its node array).
   */
  function ParseTree(enc: seq<byte>, p: nat, n: nat): (r: Option<Parsed>)
    ensures r.Some? ==> r.value.next == n + Size(r.value.tree) <= MaxTreeNodes
    decreases MaxTreeNodes - n
  {
    if n >= MaxTreeNodes then None
    else if BitAt(enc, p) then
      Some(Parsed(Leaf(Value(BitsAt(enc, p + 1, SymbolSize))), p + 1 + SymbolSize, n + 1))
    else
      match ParseTree(enc, p + 1, n + 1)
      case None => None
      case Some(pa) =>
        match ParseTree(enc, pa.pos, pa.next)
        case None => None
        case Some(pb) => Some(Parsed(Branch(pa.tree, pb.tree), pb.pos, pb.next))
  }

  // ---------------------------------------------------------------------------
  // Shape facts.

  lemma {:induction false} SizeOfTree(t: Tree)
    ensures Size(t) == 2 * |Leaves(t)| - 1
    ensures |Serialize(t)| == 11 * |Leaves(t)| - 1
  {
    match t
    case Leaf(_) =>
    case Branch(a, b) =>
      SizeOfTree(a);
      SizeOfTree(b);
  }

  /** No leaf is deeper than the number of leaves minus one. */
  lemma {:induction false} PathBound(t: Tree, s: nat)
    requires s in Leaves(t)
    ensures |Path(t, s)| < |Leaves(t)|
  {
    match t
    case Leaf(_) =>
    case Branch(a, b) =>
      SizeOfTree(a);
      SizeOfTree(b);
      if s in Leaves(a) {
        PathBound(a, s);
      } else {
        PathBound(b, s);
      }
  }

  lemma {:induction false} LeavesNonEmpty(t: Tree)
    ensures |Leaves(t)| >= 1
  {
    match t
    case Leaf(_) =>
    case Branch(a, b) =>
      LeavesNonEmpty(a);
  }

  /** The symbols 0 .. n-1. */
  function Range(n: nat): (r: set<nat>)
    ensures forall x: nat :: x in r <==> x < n
    ensures |r| == n
  {
    if n == 0 then {} else Range(n - 1) + {n - 1}
  }

  /** A tree whose leaves are distinct symbols of the alphabet fits the decoder's node arena. */
  lemma {:induction false} FitsArena(t: Tree, used: set<nat>)
    requires Leaves(t) == multiset(used)
    requires forall s :: s in used ==> s < NumSymbols
    ensures |Leaves(t)| <= NumSymbols && Size(t) <= MaxTreeNodes
  {
    SubsetSize(used, Range(NumSymbols));
    SizeOfTree(t);
  }

  lemma {:induction false} SubsetSize<T>(a: set<T>, b: set<T>)
    requires a <= b
    ensures |a| <= |b|
    decreases |b|
  {
    if b != {} {
      var x :| x in b;
      SubsetSize(a - {x}, b - {x});
    }
  }

  // ---------------------------------------------------------------------------
  // The description reads back, the codes decode.

  /** RecoverTree's reading of StoreTree's description is the same tree, ending right after it. */
  lemma {:induction false} ParseSerialize(t: Tree, enc: seq<byte>, p: nat, n: nat)
    requires n + Size(t) <= MaxTreeNodes
    requires SymbolsBelow(t, Pow2(SymbolSize))
    requires BitsAt(enc, p, |Serialize(t)|) == Serialize(t)
    ensures var r := ParseTree(enc, p, n);
      r.Some? && r.value.tree == t && r.value.pos == p + |Serialize(t)| && r.value.next == n + Size(t)
    decreases Size(t), 1
  {
    match t
    case Leaf(s) =>
      assert s in Leaves(t);
      ParseLeaf(s, enc, p, n);
    case Branch(a, b) =>
      SymbolsBelowChildren(t, Pow2(SymbolSize));
      var sa, sb := Serialize(a), Serialize(b);
      assert Serialize(t) == [false] + (sa + sb);
      BitsAtCons(enc, p, false, sa + sb);
      BitsAtAppend(enc, p + 1, sa, sb);
      ParseSerializeBranch(a, b, enc, p, n);
  }

  lemma {:induction false} ParseSerializeBranch(a: Tree, b: Tree, enc: seq<byte>, p: nat, n: nat)
    requires n + 1 + Size(a) + Size(b) <= MaxTreeNodes
    requires SymbolsBelow(a, Pow2(SymbolSize)) && SymbolsBelow(b, Pow2(SymbolSize))
    requires !BitAt(enc, p)
    requires BitsAt(enc, p + 1, |Serialize(a)|) == Serialize(a)
    requires BitsAt(enc, p + 1 + |Serialize(a)|, |Serialize(b)|) == Serialize(b)
    ensures var r := ParseTree(enc, p, n);
      r.Some? && r.value.tree == Branch(a, b) && r.value.pos == p + 1 + |Serialize(a)| + |Serialize(b)|
      && r.value.next == n + 1 + Size(a) + Size(b)
    decreases 1 + Size(a) + Size(b), 0
  {
    ParseSerialize(a, enc, p + 1, n + 1);
    var pa := ParseTree(enc, p + 1, n + 1).value;
    assert pa.pos == p + 1 + |Serialize(a)| && pa.next + Size(b) <= MaxTreeNodes;
    ParseSerialize(b, enc, pa.pos, pa.next);
    ParseBranch(enc, p, n);
  }

  lemma {:induction false} ParseBranch(enc: seq<byte>, p: nat, n: nat)
    requires n < MaxTreeNodes && !BitAt(enc, p)
    requires ParseTree(enc, p + 1, n + 1).Some?
    requires ParseTree(enc, ParseTree(enc, p + 1, n + 1).value.pos, ParseTree(enc, p + 1, n + 1).value.next).Some?
    ensures var pa := ParseTree(enc, p + 1, n + 1).value;
      var pb := ParseTree(enc, pa.pos, pa.next).value;
      var r := ParseTree(enc, p, n);
      r.Some? && r.value.tree == Branch(pa.tree, pb.tree) && r.value.pos == pb.pos && r.value.next == pb.next
  {
  }

  /** The same, with both children's parses named. */
  lemma {:induction false} ParseBranchOf(enc: seq<byte>, p: nat, n: nat, ta: Tree, qa: nat, na: nat,
                                         tb: Tree, qb: nat, nb: nat)
    requires n < MaxTreeNodes && !BitAt(enc, p)
    requires var r := ParseTree(enc, p + 1, n + 1); r.Some? && r.value.tree == ta && r.value.pos == qa && r.value.next == na
    requires var r := ParseTree(enc, qa, na); r.Some? && r.value.tree == tb && r.value.pos == qb && r.value.next == nb
    ensures var r := ParseTree(enc, p, n); r.Some? && r.value.tree == Branch(ta, tb) && r.value.pos == qb && r.value.next == nb
  {
    ParseBranch(enc, p, n);
  }

  /** A branch whose child A cannot be read cannot be read. */
  lemma {:induction false} ParseBranchFailsA(enc: seq<byte>, p: nat, n: nat)
    requires n < MaxTreeNodes && !BitAt(enc, p)
    requires ParseTree(enc, p + 1, n + 1).None?
    ensures ParseTree(enc, p, n).None?
  {
  }

  /** A branch whose child B cannot be read cannot be read. */
  lemma {:induction false} ParseBranchFailsB(enc: seq<byte>, p: nat, n: nat)
    requires n < MaxTreeNodes && !BitAt(enc, p)
    requires ParseTree(enc, p + 1, n + 1).Some?
    requires ParseTree(enc, ParseTree(enc, p + 1, n + 1).value.pos, ParseTree(enc, p + 1, n + 1).value.next).None?
    ensures ParseTree(enc, p, n).None?
  {
  }

  /** The same, with child A's parse named. */
  lemma {:induction false} ParseBranchFailsBOf(enc: seq<byte>, p: nat, n: nat, qa: nat, na: nat)
    requires n < MaxTreeNodes && !BitAt(enc, p)
    requires var r := ParseTree(enc, p + 1, n + 1); r.Some? && r.value.pos == qa && r.value.next == na
    requires ParseTree(enc, qa, na).None?
    ensures ParseTree(enc, p, n).None?
  {
    ParseBranchFailsB(enc, p, n);
  }

  lemma {:induction false} ParseLeaf(s: nat, enc: seq<byte>, p: nat, n: nat)
    requires n < MaxTreeNodes && s < Pow2(SymbolSize)
    requires BitsAt(enc, p, |Serialize(Leaf(s))|) == Serialize(Leaf(s))
    ensures var r := ParseTree(enc, p, n);
      r.Some? && r.value.tree == Leaf(s) && r.value.pos == p + 1 + SymbolSize && r.value.next == n + 1
  {
    BitsAtCons(enc, p, true, LowBits(s, SymbolSize));
    ValueOfLowBitsSmall(s, SymbolSize);
  }

  lemma {:induction false} SymbolsBelowChildren(t: Tree, bound: nat)
    requires t.Branch? && SymbolsBelow(t, bound)
    ensures SymbolsBelow(t.a, bound) && SymbolsBelow(t.b, bound)
  {
    forall s | s in Leaves(t.a) || s in Leaves(t.b)
      ensures s < bound
    {
      assert s in Leaves(t);
    }
  }

  lemma {:induction false} BitsAtCons(enc: seq<byte>, p: nat, x: bool, s: seq<bool>)
    requires BitsAt(enc, p, |[x] + s|) == [x] + s
    ensures BitAt(enc, p) == x && BitsAt(enc, p + 1, |s|) == s
  {
    assert BitsAt(enc, p, |[x] + s|)[0] == BitAt(enc, p);
    forall j | 0 <= j < |s|
      ensures BitsAt(enc, p + 1, |s|)[j] == s[j]
    {
      assert BitsAt(enc, p, |[x] + s|)[j + 1] == BitAt(enc, p + 1 + j);
    }
  }

  /** Walking a leaf's path leads to that leaf, right after the path's last bit. */
  lemma {:induction false} WalkPath(t: Tree, s: nat, enc: seq<byte>, p: nat)
    requires s in Leaves(t)
    requires BitsAt(enc, p, |Path(t, s)|) == Path(t, s)
    ensures Walk(t, enc, p).0 == s && Walk(t, enc, p).1 == p + |Path(t, s)|
  {
    match t
    case Leaf(x) =>
      assert s == x;
    case Branch(a, b) =>
      if s in Leaves(a) {
        assert Path(t, s) == [false] + Path(a, s);
        BitsAtCons(enc, p, false, Path(a, s));
        assert Walk(t, enc, p) == Walk(a, enc, p + 1);
        WalkPath(a, s, enc, p + 1);
      } else {
        assert Path(t, s) == [true] + Path(b, s);
        BitsAtCons(enc, p, true, Path(b, s));
        assert Walk(t, enc, p) == Walk(b, enc, p + 1);
        WalkPath(b, s, enc, p + 1);
      }
  }

  /** With distinct leaves, no leaf's path is a prefix of another leaf's path. */
  lemma {:induction false} PathsPrefixFree(t: Tree, s1: nat, s2: nat)
    requires DistinctLeaves(t)
    requires s1 in Leaves(t) && s2 in Leaves(t) && s1 != s2
    ensures !(|Path(t, s1)| <= |Path(t, s2)| && Path(t, s1) == Path(t, s2)[..|Path(t, s1)|])
  {
    match t
    case Leaf(x) =>
    case Branch(a, b) =>
      DistinctChildren(t);
      var p1, p2 := Path(t, s1), Path(t, s2);
      if s1 in Leaves(a) && s2 in Leaves(a) {
        PathsPrefixFree(a, s1, s2);
        assert p1[1..] == Path(a, s1) && p2[1..] == Path(a, s2);
      } else if s1 !in Leaves(a) && s2 !in Leaves(a) {
        PathsPrefixFree(b, s1, s2);
        assert p1[1..] == Path(b, s1) && p2[1..] == Path(b, s2);
      } else {
        assert p1[0] != p2[0];
      }
  }
}
