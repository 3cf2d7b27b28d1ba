/**
 * Path lengths of code trees: how deep the leaves of a binary tree must lie
 * on the whole, and the code bits a token sequence takes in a tree.
 */
module PathLength {
  import opened Bits
  import opened Tokens
  import opened HuffTree

  // ---------------------------------------------------------------------------
  // Depths of leaves.

  /** The number of leaves of t that carry a symbol other than r. */
  function Others(t: Tree, r: nat): nat
  {
    match t
    case Leaf(s) => if s == r then 0 else 1
    case Branch(a, b) => Others(a, r) + Others(b, r)
  }

  lemma {:induction false} OthersCount(t: Tree, r: nat)
    ensures Others(t, r) + Leaves(t)[r] == |Leaves(t)|
  {
    match t
    case Leaf(_) =>
    case Branch(a, b) =>
      OthersCount(a, r);
      OthersCount(b, r);
  }

  /** The depths of the leaves of t that carry a symbol other than r, added up. */
  function OtherDepths(t: Tree, r: nat): nat
  {
    match t
    case Leaf(_) => 0
    case Branch(a, b) => OtherDepths(a, r) + OtherDepths(b, r) + Others(a, r) + Others(b, r)
  }

  /** x added up c times: the product x * c (TimesIs) as a sum the proofs below can unfold. */
  function Times(x: nat, c: nat): nat
  {
    if c == 0 then 0 else Times(x, c - 1) + x
  }

  lemma {:induction false} TimesIs(x: nat, c: nat)
    ensures Times(x, c) == x * c
  {
    if c > 0 {
      TimesIs(x, c - 1);
      assert x * c == x * (c - 1) + x;
    }
  }

  lemma {:induction false} TimesAdd(x: nat, a: nat, b: nat)
    ensures Times(x, a + b) == Times(x, a) + Times(x, b)
    decreases b
  {
    if b > 0 {
      TimesAdd(x, a, b - 1);
    }
  }

  lemma {:induction false} TimesSucc(x: nat, c: nat)
    ensures Times(x + 1, c) == Times(x, c) + c
  {
    if c > 0 {
      TimesSucc(x, c - 1);
    }
  }

  lemma {:induction false} Pow2AtLeast(m: nat)
    ensures Pow2(m) >= m + 1
  {
    if m > 0 {
      Pow2AtLeast(m - 1);
    }
  }

  /**
   * The leaves of t other than r have depths adding up to at least m + 1
   * each, less 2^m, and one more when r has a leaf of its own.
   */
  ghost predicate DepthsBound(t: Tree, r: nat, m: nat)
  {
    OtherDepths(t, r) + Pow2(m) >= Times(m + 1, Others(t, r)) + (if r in Leaves(t) then 1 else 0)
  }

  /**
   * A binary tree cannot keep many leaves shallow: at most 2^m leaves lie
   * at depth m or less, so DepthsBound holds for every m.
   */
  lemma {:induction false} OtherDepthsBound(t: Tree, r: nat, m: nat)
    ensures DepthsBound(t, r, m)
  {
    match t
    case Leaf(s) =>
      LeafDepths(s, r, m);
    case Branch(a, b) =>
      if m > 0 {
        OtherDepthsBound(a, r, m - 1);
        OtherDepthsBound(b, r, m - 1);
      }
      BranchDepths(a, b, r, m);
  }

  /** DepthsBound for a single leaf. */
  lemma LeafDepths(s: nat, r: nat, m: nat)
    ensures DepthsBound(Leaf(s), r, m)
  {
    Pow2AtLeast(m);
    assert Times(m + 1, 1) == m + 1;
  }

  /** DepthsBound at a branch, from DepthsBound for its sides at one level less. */
  lemma BranchDepths(a: Tree, b: Tree, r: nat, m: nat)
    requires m > 0 ==> DepthsBound(a, r, m - 1) && DepthsBound(b, r, m - 1)
    ensures DepthsBound(Branch(a, b), r, m)
  {
    var t := Branch(a, b);
    var ca, cb := Others(a, r), Others(b, r);
    assert Times(m + 1, Others(t, r)) == Times(m, ca) + ca + Times(m, cb) + cb by {
      TimesSplit(m, ca, cb);
    }
    LeafInBranch(a, b, r);
    if m == 0 {
      TimesIs(0, ca);
      TimesIs(0, cb);
    }
  }

  lemma TimesSplit(x: nat, a: nat, b: nat)
    ensures Times(x + 1, a + b) == Times(x, a) + a + Times(x, b) + b
  {
    TimesAdd(x + 1, a, b);
    TimesSucc(x, a);
    TimesSucc(x, b);
  }

  /** A symbol has a leaf in a branch when it has one in either side. */
  lemma LeafInBranch(a: Tree, b: Tree, r: nat)
    ensures r in Leaves(Branch(a, b)) <==> r in Leaves(a) || r in Leaves(b)
  {
    assert Leaves(Branch(a, b))[r] == Leaves(a)[r] + Leaves(b)[r];
  }

  /** With 257 leaves or more, the leaves other than one leaf r lie 2049 levels deep in all. */
  lemma {:induction false} DeepLeaves(t: Tree, r: nat)
    requires |Leaves(t)| >= 257 && Leaves(t)[r] == 1
    ensures OtherDepths(t, r) >= 2049
  {
    OtherDepthsBound(t, r, 8);
    Pow2Eight();
    OthersCount(t, r);
    TimesIs(9, Others(t, r));
  }

  // ---------------------------------------------------------------------------
  // Code bits of a token sequence.

  /** The number of tokens of ts whose symbols have leaves in t. */
  function Weight(t: Tree, ts: seq<Token>): nat
  {
    match t
    case Leaf(s) => Occurrences(ts, s)
    case Branch(a, b) => Weight(a, ts) + Weight(b, ts)
  }

  /** The code bits the tokens of ts take in t: each token's leaf depth, added up. */
  function PathBits(t: Tree, ts: seq<Token>): nat
  {
    match t
    case Leaf(_) => 0
    case Branch(a, b) => PathBits(a, ts) + PathBits(b, ts) + Weight(a, ts) + Weight(b, ts)
  }

  lemma {:induction false} NoPathBits(t: Tree)
    ensures Weight(t, []) == 0 && PathBits(t, []) == 0
  {
    match t
    case Leaf(_) =>
    case Branch(a, b) =>
      NoPathBits(a);
      NoPathBits(b);
  }

  /** One more token in front adds its path to the code bits. */
  lemma {:induction false} PathBitsCons(t: Tree, x: Token, ts: seq<Token>)
    requires Leaves(t)[Symbol(x)] <= 1
    ensures Weight(t, [x] + ts) == Weight(t, ts) + Leaves(t)[Symbol(x)]
    ensures PathBits(t, [x] + ts) == PathBits(t, ts) + if Symbol(x) in Leaves(t) then |Path(t, Symbol(x))| else 0
  {
    assert ([x] + ts)[1..] == ts;
    match t
    case Leaf(_) =>
    case Branch(a, b) =>
      PathBitsCons(a, x, ts);
      PathBitsCons(b, x, ts);
  }

  /** When every symbol other than r occurs at least f times, each leaf other than r costs f bits per level. */
  lemma {:induction false} WeightedBound(t: Tree, ts: seq<Token>, r: nat, f: nat)
    requires forall s :: s in Leaves(t) && s != r ==> Occurrences(ts, s) >= f
    ensures WeightsAtLeast(t, ts, r, f)
  {
    match t
    case Leaf(s) =>
      if s != r {
        assert Times(f, 1) == Times(f, 0) + f;
      }
    case Branch(a, b) =>
      WeightedBound(a, ts, r, f);
      WeightedBound(b, ts, r, f);
      BranchWeights(a, b, ts, r, f);
  }

  /** The tokens of ts weigh at least f per leaf of t other than r, and take f code bits per level of those leaves. */
  ghost predicate WeightsAtLeast(t: Tree, ts: seq<Token>, r: nat, f: nat)
  {
    Weight(t, ts) >= Times(f, Others(t, r)) && PathBits(t, ts) >= Times(f, OtherDepths(t, r))
  }

  /** WeightsAtLeast at a branch, from WeightsAtLeast for its sides. */
  lemma BranchWeights(a: Tree, b: Tree, ts: seq<Token>, r: nat, f: nat)
    requires WeightsAtLeast(a, ts, r, f) && WeightsAtLeast(b, ts, r, f)
    ensures WeightsAtLeast(Branch(a, b), ts, r, f)
  {
    var t := Branch(a, b);
    var da, db, ca, cb := OtherDepths(a, r), OtherDepths(b, r), Others(a, r), Others(b, r);
    assert Others(t, r) == ca + cb;
    assert OtherDepths(t, r) == (da + db) + (ca + cb);
    TimesSums(f, da, db, ca, cb);
  }

  lemma TimesSums(f: nat, da: nat, db: nat, ca: nat, cb: nat)
    ensures Times(f, ca + cb) == Times(f, ca) + Times(f, cb)
    ensures Times(f, (da + db) + (ca + cb)) == Times(f, da) + Times(f, db) + Times(f, ca) + Times(f, cb)
  {
    TimesAdd(f, da + db, ca + cb);
    TimesAdd(f, da, db);
    TimesAdd(f, ca, cb);
  }

  lemma {:induction false} TimesAtLeast(x: nat, c: nat, d: nat)
    requires c >= d
    ensures Times(x, c) >= Times(x, d)
  {
    TimesAdd(x, d, c - d);
  }
}

/**
 * How large Compress's output can get.  MaxCompressedSize(n) = n + 359 is
 * the room the source tells callers of Compress to provide.  A block that
 * uses all 256 byte values equally often, followed by one run of two zeros,
 * needs more than that, whatever tree the encoder builds for it: its 257
 * symbols cannot all have codes of at most 8 bits.  The room Compress does
 * stay within is Huffman.CompressRoom (Huffman.CompressedFitsRoom).
 */
module SizeBound {
  import opened Bits
  import opened Tokens
  import opened HuffTree
  import opened Encoder
  import opened Huffman
  import opened PathLength

  /** In a tree with a branch at its root, a token sequence is encoded in at least its code bits. */
  lemma {:induction false} EncodedAtLeast(t: Tree, ts: seq<Token>)
    requires t.Branch? && DistinctLeaves(t) && Codable(t, ts)
    ensures |EncodeTokens(t, ts)| >= PathBits(t, ts)
  {
    if ts == [] {
      NoPathBits(t);
    } else {
      var rest := ts[1..];
      assert Codable(t, rest) by {
        forall i | 0 <= i < |rest| ensures Symbol(rest[i]) in Leaves(t) {
          assert rest[i] == ts[i + 1];
        }
      }
      assert ts == [ts[0]] + rest;
      PathBitsCons(t, ts[0], rest);
      EncodedAtLeast(t, rest);
    }
  }

  // ---------------------------------------------------------------------------
  // The sweep block.

  /** The byte values 0 to 255, f times over, then two zeros. */
  function Sweep(f: nat): (data: seq<byte>)
    ensures |data| == 256 * f + 2
    ensures forall i :: 0 <= i < 256 * f ==> data[i] == i % 256
    ensures data[256 * f] == 0 && data[256 * f + 1] == 0
  {
    seq(256 * f, (i: int) => (i % 256) as byte) + [0, 0]
  }

  /** The literals of the byte values k % 256 up to n. */
  function Literals(k: nat, n: nat): seq<Token>
    decreases n - k
  {
    if k >= n then [] else [Literal((k % 256) as byte)] + Literals(k + 1, n)
  }

  /** Each byte of the sweep is a literal of its own; the two zeros at the end are one run. */
  lemma {:induction false} SweepTokensFrom(f: nat, k: nat)
    requires k <= 256 * f
    ensures TokeniseFrom(Sweep(f), k) == Literals(k, 256 * f) + [Zeros(2)]
    decreases 256 * f - k
  {
    var data := Sweep(f);
    if k == 256 * f {
      assert ZeroRun(data, k, 1) == 2 by {
        assert ZeroRun(data, k, 2) == 2;
      }
      assert TokeniseFrom(data, k + 2) == [];
      assert TokeniseFrom(data, k) == [Zeros(2)] + [];
    } else {
      if k % 256 == 0 {
        assert data[k + 1] == 1;
        assert ZeroRun(data, k, 1) == 1;
      }
      assert TokenAt(data, k) == (Literal((k % 256) as byte), 1);
      SweepTokensFrom(f, k + 1);
      assert TokeniseFrom(data, k) == [Literal((k % 256) as byte)] + (Literals(k + 1, 256 * f) + [Zeros(2)]);
    }
  }

  /** Byte value s occurs once in each round of the sweep from k on. */
  lemma {:induction false} LiteralsCount(f: nat, k: nat, s: nat)
    requires k <= 256 * f && s < 256
    ensures Occurrences(Literals(k, 256 * f), s) == f - k / 256 - if k % 256 > s then 1 else 0
    decreases 256 * f - k
  {
    if k < 256 * f {
      var ls := Literals(k, 256 * f);
      assert ls[1..] == Literals(k + 1, 256 * f);
      LiteralsCount(f, k + 1, s);
      if k % 256 == 255 {
        assert (k + 1) / 256 == k / 256 + 1 && (k + 1) % 256 == 0;
      } else {
        assert (k + 1) / 256 == k / 256 && (k + 1) % 256 == k % 256 + 1;
      }
    }
  }

  /** No literal has a run-length symbol. */
  lemma {:induction false} LiteralsBelow(k: nat, n: nat, s: nat)
    requires s >= 256
    ensures Occurrences(Literals(k, n), s) == 0
    decreases n - k
  {
    if k < n {
      assert Literals(k, n)[1..] == Literals(k + 1, n);
      LiteralsBelow(k + 1, n, s);
    }
  }

  /** The symbols of the sweep: each byte value f times, the two-zero run once, nothing else. */
  lemma {:induction false} SweepOccurrences(f: nat, s: nat)
    ensures Occurrences(Tokenise(Sweep(f)), s) == if s < 256 then f else if s == SymTwoZeros then 1 else 0
  {
    SweepTokensFrom(f, 0);
    OccurrencesAppend(Literals(0, 256 * f), Zeros(2), s);
    if s < 256 {
      LiteralsCount(f, 0, s);
    } else {
      LiteralsBelow(0, 256 * f, s);
    }
  }

  /** A multiset that holds each of 0 .. n-1 has at least n elements. */
  lemma {:induction false} HoldsRange(m: multiset<nat>, n: nat)
    requires forall s: nat :: s < n ==> m[s] >= 1
    ensures |m| >= n
  {
    if n > 0 {
      var m' := m - multiset{n - 1};
      assert m == m' + multiset{n - 1};
      forall s: nat | s < n - 1 ensures m'[s] >= 1 {
        assert m'[s] == m[s];
      }
      HoldsRange(m', n - 1);
    }
  }

  /** The tree built for the sweep has a leaf for each byte value and one for the two-zero run. */
  lemma {:induction false} SweepTree(f: nat, t: Tree)
    requires f >= 1 && TreeForData(Sweep(f), t)
    ensures t.Branch? && DistinctLeaves(t) && |Leaves(t)| >= 257 && Leaves(t)[SymTwoZeros] == 1
    ensures forall s :: s in Leaves(t) && s != SymTwoZeros ==> Occurrences(Tokenise(Sweep(f)), s) >= f
  {
    forall s: nat ensures Leaves(t)[s] == if s <= SymTwoZeros then 1 else 0 {
      SweepOccurrences(f, s);
    }
    HoldsRange(Leaves(t), SymTwoZeros + 1);
    assert t.Leaf? ==> |Leaves(t)| == 1;
    forall s | s in Leaves(t) && s != SymTwoZeros ensures Occurrences(Tokenise(Sweep(f)), s) >= f {
      SweepOccurrences(f, s);
    }
  }

  /**
   * Whatever tree the encoder builds for the sweep, its description takes
   * 2826 bits and the tokens at least 2049 bits per round.
   */
  lemma {:induction false} SweepBits(f: nat, t: Tree)
    requires f >= 1 && TreeForData(Sweep(f), t)
    ensures Codable(t, Tokenise(Sweep(f)))
    ensures |Serialize(t) + EncodeTokens(t, Tokenise(Sweep(f)))| >= 2826 + 2049 * f
  {
    var tokens := Tokenise(Sweep(f));
    SweepTree(f, t);
    TreeForDataCodable(Sweep(f), t);
    SizeOfTree(t);
    WeightedBound(t, tokens, SymTwoZeros, f);
    DeepLeaves(t, SymTwoZeros);
    TimesAtLeast(f, OtherDepths(t, SymTwoZeros), 2049);
    TimesIs(f, 2049);
    EncodedAtLeast(t, tokens);
  }

  /**
   * From 63 rounds on, what Compress writes for the sweep is larger than
   * MaxCompressedSize of the sweep's length.
   */
  lemma {:induction false} SweepOvershoots(f: nat, t: Tree, out: seq<byte>, size: nat)
    requires f >= 63 && CompressedAs(Sweep(f), t, out, size)
    ensures size > MaxCompressedSize(|Sweep(f)|)
  {
    SweepBits(f, t);
  }
}
