/**
 * What Uncompress makes of what Compress writes. Every token is coded by
 * its leaf's path in the tree, then its count bits, and the decoder gives
 * back the block, provided the tree has a branch. With a single leaf the
 * encoder spends one bit per token that the decoder does not read, and the
 * block only decodes when it is short.
 */
module RoundTrip {
  import opened Bits
  import opened Tokens
  import opened HuffTree
  import opened Encoder
  import opened Decoder
  import opened Huffman

  /** A token coded by its leaf's path in t (empty for a single leaf), then its count bits. */
  function PathToken(t: Tree, tok: Token): seq<bool>
    requires Symbol(tok) in Leaves(t)
  {
    Path(t, Symbol(tok)) + LowBits(Extra(tok), ExtraBits(Symbol(tok)))
  }

  function PathTokens(t: Tree, ts: seq<Token>): seq<bool>
    requires Codable(t, ts)
  {
    if ts == [] then [] else PathToken(t, ts[0]) + PathTokens(t, ts[1..])
  }

  /** With a branch at the root every code is the leaf's path, so Compress writes PathTokens. */
  lemma {:induction false} EncodeTokensArePaths(t: Tree, ts: seq<Token>)
    requires t.Branch? && Codable(t, ts)
    ensures EncodeTokens(t, ts) == PathTokens(t, ts)
  {
    if ts != [] {
      EncodeTokensArePaths(t, ts[1..]);
    }
  }

  /** The walk over a token's path code reaches its symbol, just before its count bits. */
  lemma {:induction false} WalkToken(t: Tree, enc: seq<byte>, p: nat, tok: Token)
    requires Symbol(tok) in Leaves(t)
    requires BitsAt(enc, p, |PathToken(t, tok)|) == PathToken(t, tok)
    ensures Walk(t, enc, p).0 == Symbol(tok)
    ensures Walk(t, enc, p).1 == p + |Path(t, Symbol(tok))|
    ensures BitsAt(enc, p + |Path(t, Symbol(tok))|, ExtraBits(Symbol(tok))) == LowBits(Extra(tok), ExtraBits(Symbol(tok)))
  {
    var sym := Symbol(tok);
    var code, extra := Path(t, sym), LowBits(Extra(tok), ExtraBits(sym));
    assert PathToken(t, tok) == code + extra;
    BitsAtAppend(enc, p, code, extra);
    WalkPath(t, sym, enc, p);
  }

  /** A token's symbol whose count bits follow at q produces the token's bytes. */
  lemma {:induction false} TokenOutput(tok: Token, enc: seq<byte>, q: nat, remaining: nat)
    requires |Expand(tok)| <= remaining
    requires BitsAt(enc, q, ExtraBits(Symbol(tok))) == LowBits(Extra(tok), ExtraBits(Symbol(tok)))
    ensures remaining > 0
    ensures var r := SymbolOutput(Symbol(tok), enc, q, remaining);
      r.Some? && r.value.output == Expand(tok) && r.value.pos == q + ExtraBits(Symbol(tok))
  {
    TokenFits(tok);
    if tok.Zeros? {
      ValueOfLowBitsSmall(Extra(tok), ExtraBits(Symbol(tok)));
      assert Expand(tok) == ZeroBytes(tok.count);
    }
  }

  /** The decoder reads one token's path code and count bits back as that token's bytes. */
  lemma {:induction false} DecodeOneToken(t: Tree, enc: seq<byte>, p: nat, tok: Token, remaining: nat)
    requires Symbol(tok) in Leaves(t) && |Expand(tok)| <= remaining
    requires BitsAt(enc, p, |PathToken(t, tok)|) == PathToken(t, tok)
    ensures remaining > 0
    ensures var r := Step(t, enc, p, remaining);
      r.Some? && r.value.output == Expand(tok) && r.value.pos == p + |PathToken(t, tok)|
  {
    WalkToken(t, enc, p, tok);
    TokenOutput(tok, enc, p + |Path(t, Symbol(tok))|, remaining);
  }

  /** The tail of a codable token sequence is codable. */
  lemma {:induction false} CodableTail(t: Tree, ts: seq<Token>)
    requires ts != [] && Codable(t, ts)
    ensures Symbol(ts[0]) in Leaves(t) && Codable(t, ts[1..])
  {
    var rest := ts[1..];
    forall i | 0 <= i < |rest| ensures Symbol(rest[i]) in Leaves(t) {
      assert rest[i] == ts[i + 1];
    }
  }

  /** The path coding of a nonempty token sequence: the first token's bits, then from q the rest's. */
  lemma {:induction false} SplitTokens(t: Tree, enc: seq<byte>, p: nat, ts: seq<Token>, q: nat)
    requires ts != [] && Codable(t, ts) && q == p + |PathToken(t, ts[0])|
    requires BitsAt(enc, p, |PathTokens(t, ts)|) == PathTokens(t, ts)
    ensures Codable(t, ts[1..])
    ensures BitsAt(enc, p, |PathToken(t, ts[0])|) == PathToken(t, ts[0])
    ensures BitsAt(enc, q, |PathTokens(t, ts[1..])|) == PathTokens(t, ts[1..])
    ensures |PathTokens(t, ts)| == |PathToken(t, ts[0])| + |PathTokens(t, ts[1..])|
    ensures Flatten(ts) == Expand(ts[0]) + Flatten(ts[1..])
  {
    CodableTail(t, ts);
    var x, y := PathToken(t, ts[0]), PathTokens(t, ts[1..]);
    assert PathTokens(t, ts) == x + y;
    BitsAtAppend(enc, p, x, y);
  }

  /** Once a symbol has produced output and moved to q, decoding goes on from q after it. */
  lemma {:induction false} DecodeAfterStep(t: Tree, enc: seq<byte>, p: nat, remaining: nat, acc: seq<byte>,
                                           output: seq<byte>, q: nat)
    requires remaining > 0
    requires var r := Step(t, enc, p, remaining); r.Some? && r.value.output == output && r.value.pos == q
    ensures |output| <= remaining
    ensures DecodeFrom(t, enc, p, remaining, acc) == DecodeFrom(t, enc, q, remaining - |output|, acc + output)
  {
  }

  /** The decoder reads the path coding of a token sequence back as the bytes it stands for. */
  lemma {:induction false} DecodeTokens(t: Tree, enc: seq<byte>, p: nat, ts: seq<Token>, acc: seq<byte>)
    requires Codable(t, ts)
    requires BitsAt(enc, p, |PathTokens(t, ts)|) == PathTokens(t, ts)
    ensures var r := DecodeFrom(t, enc, p, |Flatten(ts)|, acc);
      r.Some? && r.value.output == acc + Flatten(ts) && r.value.pos == p + |PathTokens(t, ts)|
    decreases ts
  {
    if ts == [] {
      assert acc + [] == acc;
    } else {
      var tok, rest := ts[0], ts[1..];
      var q := p + |PathToken(t, tok)|;
      SplitTokens(t, enc, p, ts, q);
      DecodeTokens(t, enc, q, rest, acc + Expand(tok));
      DecodeOneToken(t, enc, p, tok, |Flatten(ts)|);
      DecodeCons(t, enc, p, q, q + |PathTokens(t, rest)|, acc, Expand(tok), Flatten(rest));
    }
  }

  /** A first step that yields out1 and a decoding of out2 after it make a decoding of out1 + out2. */
  lemma {:induction false} DecodeCons(t: Tree, enc: seq<byte>, p: nat, q: nat, end: nat, acc: seq<byte>,
                                      out1: seq<byte>, out2: seq<byte>)
    requires out1 != []
    requires var r := Step(t, enc, p, |out1 + out2|); r.Some? && r.value.output == out1 && r.value.pos == q
    requires var r := DecodeFrom(t, enc, q, |out2|, acc + out1);
      r.Some? && r.value.output == (acc + out1) + out2 && r.value.pos == end
    ensures var r := DecodeFrom(t, enc, p, |out1 + out2|, acc);
      r.Some? && r.value.output == acc + (out1 + out2) && r.value.pos == end
  {
    DecodeAfterStep(t, enc, p, |out1 + out2|, acc, out1, q);
    assert |out1 + out2| - |out1| == |out2|;
    AppendAssoc(acc, out1, out2);
  }

  /** A tree with one leaf per symbol the block uses fits the decoder's arena, with 9-bit symbols. */
  lemma {:induction false} DataTreeFits(data: seq<byte>, t: Tree)
    requires TreeForData(data, t)
    ensures Size(t) <= MaxTreeNodes && SymbolsBelow(t, Pow2(SymbolSize))
  {
    var used := set s: nat | s < NumSymbols && s in Leaves(t);
    var m: multiset<nat> := multiset(used);
    assert Leaves(t) == m by {
      forall s: nat ensures Leaves(t)[s] == m[s] {
        assert Leaves(t)[s] == if s < NumSymbols && Occurrences(Tokenise(data), s) > 0 then 1 else 0;
      }
    }
    FitsArena(t, used);
    assert Pow2(SymbolSize) == 512;
  }

  /** The first n bits of out are those of its first size bytes when n fits in them. */
  lemma {:induction false} PrefixBits(out: seq<byte>, size: nat, n: nat)
    requires size <= |out| && n <= 8 * size
    ensures BitsAt(out[..size], 0, n) == BitsAt(out, 0, n)
  {
    forall j | 0 <= j < n ensures BitAt(out[..size], j) == BitAt(out, j) {
      assert ByteAt(out[..size], j / 8) == ByteAt(out, j / 8);
    }
  }

  /** The tree description at the start of the bits reads back as the tree, and the token bits follow it. */
  lemma {:induction false} CodedLayout(t: Tree, ts: seq<Token>, enc: seq<byte>)
    requires Size(t) <= MaxTreeNodes && SymbolsBelow(t, Pow2(SymbolSize)) && Codable(t, ts)
    requires var bits := Serialize(t) + PathTokens(t, ts);
      |enc| == (|bits| + 7) / 8 && BitsAt(enc, 0, |bits|) == bits
    ensures |enc| >= 1
    ensures var parsed := ParseTree(enc, 0, 0);
      parsed.Some? && parsed.value.tree == t && parsed.value.pos == |Serialize(t)|
    ensures BitsAt(enc, |Serialize(t)|, |PathTokens(t, ts)|) == PathTokens(t, ts)
  {
    var ser, pt := Serialize(t), PathTokens(t, ts);
    BitsAtAppend(enc, 0, ser, pt);
    assert BitsAt(enc, 0, |ser|) == ser;
    assert BitsAt(enc, |ser|, |pt|) == pt;
    TreeAtStart(t, enc);
    DescriptionLength(t, |pt|);
  }

  /** A tree description at bit 0 reads back as the tree. */
  lemma {:induction false} TreeAtStart(t: Tree, enc: seq<byte>)
    requires Size(t) <= MaxTreeNodes && SymbolsBelow(t, Pow2(SymbolSize))
    requires BitsAt(enc, 0, |Serialize(t)|) == Serialize(t)
    ensures var parsed := ParseTree(enc, 0, 0);
      parsed.Some? && parsed.value.tree == t && parsed.value.pos == |Serialize(t)|
  {
    ParseSerialize(t, enc, 0, 0);
  }

  /** A tree description and what follows it take at least one byte. */
  lemma {:induction false} DescriptionLength(t: Tree, rest: nat)
    ensures (|Serialize(t)| + rest + 7) / 8 >= 1
  {
    SizeOfTree(t);
    LeavesNonEmpty(t);
  }

  /**
   * A tree description followed by the path coding of tokens, in the fewest
   * bytes that hold them, uncompresses to the bytes the tokens stand for.
   */
  lemma {:induction false} DecodeCodedTokens(t: Tree, ts: seq<Token>, enc: seq<byte>)
    requires Size(t) <= MaxTreeNodes && SymbolsBelow(t, Pow2(SymbolSize)) && Codable(t, ts)
    requires var bits := Serialize(t) + PathTokens(t, ts);
      |enc| == (|bits| + 7) / 8 && BitsAt(enc, 0, |bits|) == bits
    ensures SpecUncompress(enc, |Flatten(ts)|) == Some(Flatten(ts))
  {
    var ser, pt := Serialize(t), PathTokens(t, ts);
    CodedLayout(t, ts, enc);
    DecodeTokens(t, enc, |ser|, ts, []);
    var decoded := DecodeFrom(t, enc, |ser|, |Flatten(ts)|, []);
    assert decoded.Some? && decoded.value.output == Flatten(ts);
    assert (decoded.value.pos + 7) / 8 == |enc|;
  }

  /**
   * The block coded with path codes after the tree description, in the
   * fewest bytes that hold it, uncompresses to the block, whatever the tree.
   */
  lemma {:induction false} PathCodedRoundTrip(data: seq<byte>, t: Tree, enc: seq<byte>)
    requires TreeForData(data, t) && Codable(t, Tokenise(data))
    requires var bits := Serialize(t) + PathTokens(t, Tokenise(data));
      |enc| == (|bits| + 7) / 8 && BitsAt(enc, 0, |bits|) == bits
    ensures SpecUncompress(enc, |data|) == Some(data)
  {
    DataTreeFits(data, t);
    TokeniseRoundTrip(data);
    DecodeCodedTokens(t, Tokenise(data), enc);
  }

  /** The tokens use at least two different symbols. */
  predicate TwoSymbols(ts: seq<Token>)
  {
    exists i, j :: 0 <= i < j < |ts| && Symbol(ts[i]) != Symbol(ts[j])
  }

  /** A symbol that occurs is the symbol of some token. */
  lemma {:induction false} OccurrenceAt(ts: seq<Token>, s: nat)
    requires Occurrences(ts, s) > 0
    ensures exists i :: 0 <= i < |ts| && Symbol(ts[i]) == s
    decreases ts
  {
    if Symbol(ts[0]) != s {
      OccurrenceAt(ts[1..], s);
      var i :| 0 <= i < |ts[1..]| && Symbol(ts[1..][i]) == s;
      assert Symbol(ts[i + 1]) == s;
    }
  }

  /** The tree built for a block has a branch at its root exactly when the block uses two different symbols. */
  lemma {:induction false} BranchIffTwoSymbols(data: seq<byte>, t: Tree)
    requires TreeForData(data, t)
    ensures t.Branch? <==> TwoSymbols(Tokenise(data))
  {
    var ts := Tokenise(data);
    if TwoSymbols(ts) {
      var i, j :| 0 <= i < j < |ts| && Symbol(ts[i]) != Symbol(ts[j]);
      EmittedSymbolsCounted(ts, i);
      EmittedSymbolsCounted(ts, j);
      TokenFits(ts[i]);
      TokenFits(ts[j]);
      assert Leaves(t)[Symbol(ts[i])] == 1 && Leaves(t)[Symbol(ts[j])] == 1;
    }
    if t.Branch? {
      LeavesNonEmpty(t.a);
      LeavesNonEmpty(t.b);
      var x :| x in Leaves(t.a);
      var y :| y in Leaves(t.b);
      assert DistinctLeaves(t) by {
        forall s: nat ensures Leaves(t)[s] <= 1 {
          assert Leaves(t)[s] == if s < NumSymbols && Occurrences(ts, s) > 0 then 1 else 0;
        }
      }
      DistinctChildren(t);
      assert x in Leaves(t) && y in Leaves(t) && x != y;
      OccurrenceAt(ts, x);
      OccurrenceAt(ts, y);
      var i :| 0 <= i < |ts| && Symbol(ts[i]) == x;
      var j :| 0 <= j < |ts| && Symbol(ts[j]) == y;
      if i < j {
        assert TwoSymbols(ts);
      } else {
        assert Symbol(ts[j]) != Symbol(ts[i]);
      }
    }
  }

  /** What Compress writes for a block with at least two different symbols uncompresses to the block. */
  lemma {:induction false} CompressRoundTrip(data: seq<byte>, t: Tree, out: seq<byte>, size: nat)
    requires |data| > 0 && CompressedAs(data, t, out, size) && TwoSymbols(Tokenise(data))
    ensures SpecUncompress(out[..size], |data|) == Some(data)
  {
    BranchIffTwoSymbols(data, t);
    var ts := Tokenise(data);
    EncodeTokensArePaths(t, ts);
    var bits := Serialize(t) + PathTokens(t, ts);
    PrefixBits(out, size, |bits|);
    PathCodedRoundTrip(data, t, out[..size]);
  }

  // ---------------------------------------------------------------------------
  // A block with a single literal symbol.

  /** With a single leaf for a literal symbol, every token is that literal. */
  lemma {:induction false} SingleLeafTokens(s: nat, ts: seq<Token>)
    requires s < 256 && Codable(Leaf(s), ts)
    ensures forall i :: 0 <= i < |ts| ==> ts[i] == Literal(s as byte)
  {
    forall i | 0 <= i < |ts| ensures ts[i] == Literal(s as byte) {
      TokenFits(ts[i]);
      assert Symbol(ts[i]) in Leaves(Leaf(s));
    }
  }

  /** Such tokens stand for one byte each, and Compress gives each the one bit of its code. */
  lemma {:induction false} SingleLeafLengths(s: nat, ts: seq<Token>)
    requires s < 256 && Codable(Leaf(s), ts)
    requires forall i :: 0 <= i < |ts| ==> ts[i] == Literal(s as byte)
    ensures |EncodeTokens(Leaf(s), ts)| == |ts|
    ensures Flatten(ts) == seq(|ts|, _ => s as byte)
    decreases ts
  {
    if ts != [] {
      CodableTail(Leaf(s), ts);
      SingleLeafLengths(s, ts[1..]);
      assert EncodeToken(Leaf(s), ts[0]) == [false];
      assert Flatten(ts) == [s as byte] + Flatten(ts[1..]);
    }
  }

  /** Decoding with a single leaf reads no bits: n bytes of its symbol, at the same position. */
  lemma {:induction false} DecodeSingleLeaf(s: nat, enc: seq<byte>, p: nat, n: nat, acc: seq<byte>)
    requires s < 256
    ensures var r := DecodeFrom(Leaf(s), enc, p, n, acc);
      r.Some? && r.value.output == acc + seq(n, _ => s as byte) && r.value.pos == p
    decreases n
  {
    if n == 0 {
      assert acc + seq(n, _ => s as byte) == acc;
    } else {
      var b := s as byte;
      DecodeAfterStep(Leaf(s), enc, p, n, acc, [b], p);
      DecodeSingleLeaf(s, enc, p, n - 1, acc + [b]);
      assert (acc + [b]) + seq(n - 1, _ => b) == acc + seq(n, _ => b);
    }
  }

  /**
   * What Compress writes for a block whose tree is a single literal leaf
   * uncompresses only when the block has at most six bytes: the decoder
   * reads no bits for the symbol, so it stops in the second byte while the
   * one-bit codes reach further.
   */
  lemma {:induction false} SingleLiteralRoundTrip(data: seq<byte>, t: Tree, out: seq<byte>, size: nat)
    requires |data| > 0 && CompressedAs(data, t, out, size) && t.Leaf? && t.symbol < 256
    ensures SpecUncompress(out[..size], |data|).Some? <==> |data| <= 6
    ensures SpecUncompress(out[..size], |data|).Some? ==> SpecUncompress(out[..size], |data|).value == data
  {
    var s, ts := t.symbol, Tokenise(data);
    SingleLeafTokens(s, ts);
    SingleLeafLengths(s, ts);
    TokeniseRoundTrip(data);
    var n := |ts|;
    assert |data| == n;
    var ser := Serialize(t);
    var bits := ser + EncodeTokens(t, ts);
    PrefixBits(out, size, |bits|);
    var enc := out[..size];
    BitsAtAppend(enc, 0, ser, EncodeTokens(t, ts));
    assert Pow2(SymbolSize) == 512;
    TreeAtStart(t, enc);
    DecodeSingleLeaf(s, enc, |ser|, n, []);
    assert [] + seq(n, _ => s as byte) == data;
    assert |ser| == 10 && |enc| == (17 + n) / 8;
  }

  /** Tokens that stand for a run of one nonzero byte are all that literal. */
  lemma {:induction false} OnlyLiteral(ts: seq<Token>, b: byte, n: nat)
    requires b != 0 && Flatten(ts) == seq(n, _ => b)
    ensures forall i :: 0 <= i < |ts| ==> ts[i] == Literal(b)
    decreases ts
  {
    if ts != [] {
      var f, e, rest := Flatten(ts), Expand(ts[0]), Flatten(ts[1..]);
      assert f == e + rest;
      assert f[0] == e[0] == b;
      assert ts[0] == Literal(b);
      assert rest == seq(n - 1, _ => b) by {
        assert rest == f[1..];
      }
      OnlyLiteral(ts[1..], b, n - 1);
      forall i | 0 <= i < |ts| ensures ts[i] == Literal(b) {
        if i > 0 {
          assert ts[i] == ts[1..][i - 1];
        }
      }
    }
  }

  /** In a sequence of one literal only its symbol occurs, once per token. */
  lemma {:induction false} OnlyLiteralOccurs(ts: seq<Token>, b: byte, s: nat)
    requires forall i :: 0 <= i < |ts| ==> ts[i] == Literal(b)
    ensures Occurrences(ts, s) == if s == b as nat then |ts| else 0
    decreases ts
  {
    if ts != [] {
      assert forall i :: 0 <= i < |ts[1..]| ==> ts[1..][i] == ts[i + 1];
      OnlyLiteralOccurs(ts[1..], b, s);
    }
  }

  /** The only tree with the single leaf s is the leaf itself. */
  lemma {:induction false} OneLeafTree(t: Tree, s: nat)
    requires Leaves(t) == multiset{s}
    ensures t == Leaf(s)
  {
    match t
    case Leaf(x) =>
      assert x in Leaves(t);
    case Branch(a, b) =>
      LeavesNonEmpty(a);
      LeavesNonEmpty(b);
      assert false;
  }

  /**
   * A counterexample: seven bytes of value 1 get a single-leaf tree, and
   * what Compress writes for them does not uncompress.
   */
  lemma {:induction false} SevenOnesDoNotRoundTrip(t: Tree, out: seq<byte>, size: nat)
    requires CompressedAs(seq(7, _ => 1), t, out, size)
    ensures t == Leaf(1)
    ensures SpecUncompress(out[..size], 7).None?
  {
    var data: seq<byte> := seq(7, _ => 1);
    var ts := Tokenise(data);
    TokeniseRoundTrip(data);
    OnlyLiteral(ts, 1, 7);
    assert ts != [];
    forall s: nat ensures Leaves(t)[s] == multiset{1}[s] {
      OnlyLiteralOccurs(ts, 1, s);
    }
    assert Leaves(t) == multiset{1};
    OneLeafTree(t, 1);
    SingleLiteralRoundTrip(data, t, out, size);
  }
}
