/**
 * The public entry points of the coder: the output bound, Compress and
 * Uncompress.
 */
module Huffman {
  import opened Bits
  import opened Tokens
  import opened HuffTree
  import opened Bitstream
  import opened Encoder
  import opened Decoder

  /** The output buffer size that callers of Compress are told to provide. */
  function MaxCompressedSize(uncompressedSize: int): (r: int)
    ensures r - uncompressedSize == MaxTreeDataSize
  {
    uncompressedSize + MaxTreeDataSize
  }

  /**
   * The tree-description part of the bound: the description of any tree
   * over distinct symbols of the alphabet fits in MaxCompressedSize(0)
   * bytes.
   */
  lemma {:induction false} TreeDescriptionFits(t: Tree)
    requires SymbolsBelow(t, NumSymbols) && DistinctLeaves(t)
    ensures |Serialize(t)| <= 8 * MaxCompressedSize(0) && |Leaves(t)| <= NumSymbols
  {
    var used := set s: nat | s < NumSymbols && s in Leaves(t);
    var m: multiset<nat> := multiset(used);
    assert Leaves(t) == m by {
      forall s: nat ensures Leaves(t)[s] == m[s] {
        assert Leaves(t)[s] <= 1;
      }
    }
    FitsArena(t, used);
    SizeOfTree(t);
  }

  /** What Compress leaves in out: the tree description, then every token's bits, in size bytes. */
  ghost predicate CompressedAs(data: seq<byte>, t: Tree, out: seq<byte>, size: nat)
  {
    && TreeForData(data, t)
    && Codable(t, Tokenise(data))
    && var bits := Serialize(t) + EncodeTokens(t, Tokenise(data));
       && size == (|bits| + 7) / 8 <= |out|
       && BitsAt(out, 0, |bits|) == bits
  }

  /** The room Compress needs: the largest tree description and 35 bytes per input byte. */
  function CompressRoom(n: nat): nat
  {
    MaxTreeDataSize + 35 * n
  }

  /**
   * The bound Compress does meet: the tree description takes at most 359
   * bytes and each byte of the block at most one token of at most 274 bits.
   */
  lemma {:induction false} CompressedFitsRoom(data: seq<byte>, t: Tree, out: seq<byte>, size: nat)
    requires CompressedAs(data, t, out, size)
    ensures size <= CompressRoom(|data|)
  {
    var tokens := Tokenise(data);
    assert SymbolsBelow(t, NumSymbols) && DistinctLeaves(t) by {
      forall s | s in Leaves(t) ensures s < NumSymbols {
        assert Leaves(t)[s] > 0;
      }
    }
    TreeDescriptionFits(t);
    EncodeTokensBound(t, tokens);
    TokensAtMostBytes(data, 0);
    assert |Serialize(t) + EncodeTokens(t, tokens)| <= 8 * MaxTreeDataSize + 274 * |data|;
  }

  /** A nonempty block counts at least one symbol. */
  lemma {:induction false} SomeSymbolCounted(data: seq<byte>, table: seq<SymbolInfo>)
    requires |data| > 0 && CountsOf(table, Tokenise(data))
    ensures exists k :: 0 <= k < NumSymbols && table[k].count > 0
  {
    var tokens := Tokenise(data);
    TokenSplit(data, 0, []);
    EmittedSymbolsCounted(tokens, 0);
    TokenFits(tokens[0]);
    assert table[Symbol(tokens[0])].count > 0;
  }

  lemma {:induction false} HistogramTree(data: seq<byte>, table: seq<SymbolInfo>, t: Tree)
    requires CountsOf(table, Tokenise(data)) && TreeFor(table, t)
    ensures TreeForData(data, t)
  {
  }

  /**
   * Compresses data into out and returns the number of bytes used; an empty
   * block compresses to nothing.
   */
  method Compress(out: array<byte>, data: seq<byte>) returns (size: nat, ghost t: Tree)
    requires out.Length >= CompressRoom(|data|)
    modifies out
    ensures |data| == 0 ==> size == 0 && out[..] == old(out[..])
    ensures |data| > 0 ==> CompressedAs(data, t, out[..], size)
    ensures |data| > 0 ==> SameFrom(old(out[..]), out[..], |Serialize(t) + EncodeTokens(t, Tokenise(data))|)
    ensures |data| > 0 ==> out[size..] == old(out[size..])
    ensures size <= CompressRoom(|data|)
  {
    if |data| < 1 {
      return 0, Leaf(0);
    }
    ghost var b0 := out[..];
    var stream := new OutBitstream(out);
    ghost var w0 := stream.Written();

    var symbols := new SymbolInfo[NumSymbols];
    Histogram(data, symbols);
    ghost var table := symbols[..];
    SomeSymbolCounted(data, table);

    t := MakeTree(symbols, stream);
    ghost var w1, b1, p1 := stream.Written(), out[..], stream.Pos();
    HistogramTree(data, table, t);

    // The table is still in symbol order, so the source's bubble sort leaves it as it is.
    CodesOfTable(table, symbols[..], t);
    SortBySymbol(symbols);

    TreeForSize(table, t);
    SizeOfTree(t);
    TreeForDataCodable(data, t);
    EncodeBlock(data, symbols, stream, t);
    ghost var w2 := stream.Written();
    size := stream.Size();
    Compressed(data, t, out[..], stream.Pos(), size, w0, w1, w2);
    SameFromTrans(b0, b1, out[..], p1, stream.Pos());
    SameFromTail(b0, out[..], stream.Pos(), size);
    CompressedFitsRoom(data, t, out[..], size);
  }

  lemma {:induction false} Compressed(data: seq<byte>, t: Tree, out: seq<byte>, pos: nat, size: nat, w0: seq<bool>, w1: seq<bool>, w2: seq<bool>)
    requires TreeForData(data, t) && Codable(t, Tokenise(data))
    requires w0 == BitsAt(out, 0, 0)
    requires w1 == w0 + Serialize(t) && w2 == w1 + EncodeTokens(t, Tokenise(data))
    requires w2 == BitsAt(out, 0, pos) && pos <= 8 * |out| && size == (pos + 7) / 8
    ensures CompressedAs(data, t, out, size) && pos == |Serialize(t) + EncodeTokens(t, Tokenise(data))|
  {
    var bits := Serialize(t) + EncodeTokens(t, Tokenise(data));
    assert w2 == bits by {
      assert w0 == [];
      assert w1 == Serialize(t);
    }
    assert |bits| == pos;
    assert BitsAt(out, 0, |bits|) == bits;
    assert size == (|bits| + 7) / 8 <= |out|;
  }

  /**
   * One pass of the decoding loop: the symbol from the lookup table or the
   * tree walk, then its byte or its run of zeros written at out[k..].
   */
  method DecodeToken(out: array<byte>, k: nat, nodes: array<DecodeNode>, lut: array<LutEntry>,
                     stream: InBitstream, ghost t: Tree)
      returns (ok: bool, next: nat)
    requires stream.Valid() && Holds(nodes[..], 0, t) && LutForRoot(lut[..], t) && k < out.Length
    modifies out, stream
    ensures stream.Valid()
    ensures ok <==> Step(t, stream.buf, old(stream.Pos()), out.Length - k).Some?
    ensures ok ==> var d := Step(t, stream.buf, old(stream.Pos()), out.Length - k).value;
      next == k + |d.output| && out[..next] == old(out[..k]) + d.output && stream.Pos() == d.pos
  {
    ghost var q := stream.Pos();
    var symbol := DecodeSymbol(nodes, lut, stream, t);
    if symbol <= 255 {
      out[k] := symbol as byte;
      assert out[..k + 1] == old(out[..k]) + [symbol as byte];
      return true, k + 1;
    }
    var known, count := ReadZeroCount(stream, symbol);
    if !known {
      return false, k;
    }
    if k + count > out.Length {
      return false, k;
    }
    FillZeros(out, k, count);
    return true, k + count;
  }

  /** Decoding on from where the next token's decoding ends gives the same block. */
  lemma DecodeFromNext(t: Tree, enc: seq<byte>, p: nat, remaining: nat, acc: seq<byte>,
                       p': nat, remaining': nat, acc': seq<byte>)
    requires remaining > 0 && Step(t, enc, p, remaining).Some?
    requires var d := Step(t, enc, p, remaining).value;
      p' == d.pos && remaining' == remaining - |d.output| && acc' == acc + d.output
    ensures DecodeFrom(t, enc, p', remaining', acc') == DecodeFrom(t, enc, p, remaining, acc)
  {
    DecodeFromStep(t, enc, p, remaining, acc);
  }

  /** The decoding loop: symbols until out is full, or false at the first symbol that does not fit. */
  method DecodeBlock(out: array<byte>, nodes: array<DecodeNode>, lut: array<LutEntry>, stream: InBitstream, ghost t: Tree)
      returns (ok: bool)
    requires stream.Valid() && Holds(nodes[..], 0, t) && LutForRoot(lut[..], t)
    modifies out, stream
    ensures stream.Valid()
    ensures ok <==> DecodeFrom(t, stream.buf, old(stream.Pos()), out.Length, []).Some?
    ensures ok ==> var d := DecodeFrom(t, stream.buf, old(stream.Pos()), out.Length, []).value;
      out[..] == d.output && stream.Pos() == d.pos
  {
    ghost var total := DecodeFrom(t, stream.buf, stream.Pos(), out.Length, []);
    var k := 0;
    assert out[..k] == [];
    while k < out.Length
      invariant stream.Valid() && 0 <= k <= out.Length
      invariant DecodeFrom(t, stream.buf, stream.Pos(), out.Length - k, out[..k]) == total
      modifies out, stream
      decreases out.Length - k
    {
      ghost var q, acc := stream.Pos(), out[..k];
      var stepOk, next := DecodeToken(out, k, nodes, lut, stream, t);
      if !stepOk {
        assert total.None? by {
          DecodeFromStep(t, stream.buf, q, out.Length - k, acc);
        }
        return false;
      }
      DecodeFromNext(t, stream.buf, q, out.Length - k, acc, stream.Pos(), out.Length - next, out[..next]);
      k := next;
    }
    assert out[..k] == out[..];
    return true;
  }

  /**
   * Uncompresses input into out, which must be filled exactly: the result
   * is true if and only if input is such a block, and out then holds it.
   */
  method Uncompress(out: array<byte>, input: seq<byte>) returns (ok: bool)
    modifies out
    ensures ok <==> SpecUncompress(input, out.Length).Some?
    ensures ok ==> out[..] == SpecUncompress(input, out.Length).value
  {
    if |input| < 1 {
      return out.Length == 0;
    }
    var stream := new InBitstream(input);
    var nodes := new DecodeNode[MaxTreeNodes](_ => DecodeNode(-1, -1, -1));
    var lut := new LutEntry[LutSize](_ => LutEntry(-1, 0, 0));
    ghost var s0, l0 := nodes[..], lut[..];
    var treeOk, root, next, t := RecoverTree(nodes, stream, 0, lut, 0, 0, 0, l0, s0);
    if !treeOk {
      return false;
    }
    ArenaHolds(s0, t, 0);
    FilledFromRoot(l0, t);
    ghost var pos := stream.Pos();
    assert ParseTree(input, 0, 0) == Some(Parsed(t, pos, next));
    var decoded := DecodeBlock(out, nodes, lut, stream, t);
    if !decoded {
      return false;
    }
    ok := stream.AtTheEnd();
  }
}
