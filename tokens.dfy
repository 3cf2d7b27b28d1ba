/**
 * The zero-run tokeniser shared by Histogram and the second pass of Compress
 * (src/huffman.cpp).  The alphabet has 261 nine-bit symbols: the literal
 * bytes 0-255 and five tokens for runs of zero bytes.
 */
module Tokens {
  import opened Bits

  const SymbolSize: nat := 9
  const NumSymbols: nat := 261

  const SymTwoZeros: nat := 256        // 2 zeros, no extra bits
  const SymUpTo6Zeros: nat := 257      // 3 - 6 zeros, 2 extra bits
  const SymUpTo22Zeros: nat := 258     // 7 - 22 zeros, 4 extra bits
  const SymUpTo278Zeros: nat := 259    // 23 - 278 zeros, 8 extra bits
  const SymUpTo16662Zeros: nat := 260  // 279 - 16662 zeros, 14 extra bits

  /** The longest run one token covers. */
  const MaxRun: nat := 16662

  type RunLength = c: nat | 2 <= c <= 16662 witness 2

  /** One unit of the tokenised block: a byte, or a run of at least two zero bytes. */
  datatype Token = Literal(value: byte) | Zeros(count: RunLength)

  /** The run-length symbol for a run of `zeros` zeros. */
  function RunSymbol(zeros: RunLength): nat
  {
    if zeros == 2 then SymTwoZeros
    else if zeros <= 6 then SymUpTo6Zeros
    else if zeros <= 22 then SymUpTo22Zeros
    else if zeros <= 278 then SymUpTo278Zeros
    else SymUpTo16662Zeros
  }

  /** The shortest run a run-length symbol stands for. */
  function RunBase(sym: nat): nat
  {
    if sym == SymTwoZeros then 2
    else if sym == SymUpTo6Zeros then 3
    else if sym == SymUpTo22Zeros then 7
    else if sym == SymUpTo278Zeros then 23
    else 279
  }

  /** The number of count bits that follow a symbol's code. */
  function ExtraBits(sym: nat): nat
  {
    if sym == SymUpTo6Zeros then 2
    else if sym == SymUpTo22Zeros then 4
    else if sym == SymUpTo278Zeros then 8
    else if sym == SymUpTo16662Zeros then 14
    else 0
  }

  function Symbol(t: Token): nat
  {
    match t
    case Literal(v) => v
    case Zeros(c) => RunSymbol(c)
  }

  /** The count value written after a run token's code. */
  function Extra(t: Token): nat
  {
    match t
    case Literal(_) => 0
    case Zeros(c) => c - RunBase(RunSymbol(c))
  }

  /** The bytes a token stands for. */
  function Expand(t: Token): (r: seq<byte>)
  {
    match t
    case Literal(v) => [v]
    case Zeros(c) => seq(c, _ => 0)
  }

  function Flatten(ts: seq<Token>): seq<byte>
  {
    if ts == [] then [] else Expand(ts[0]) + Flatten(ts[1..])
  }

  /** The number of tokens in ts whose symbol is s. */
  function Occurrences(ts: seq<Token>, s: nat): nat
  {
    if ts == [] then 0 else (if Symbol(ts[0]) == s then 1 else 0) + Occurrences(ts[1..], s)
  }

  /**
   * The zero count the source's scanning loop ends with when it starts the run
   * at k and has counted z zeros: it stops at MaxRun, at the end of the block
   * or before a nonzero byte.
   */
  function ZeroRun(data: seq<byte>, k: nat, z: nat): (r: nat)
    requires 1 <= z <= MaxRun && k + z <= |data|
    ensures z <= r <= MaxRun && k + r <= |data|
    decreases MaxRun - z
  {
    if z < MaxRun && k + z < |data| && data[k + z] == 0 then ZeroRun(data, k, z + 1) else z
  }

  /** The token that starts at position k, and the number of bytes it covers. */
  function TokenAt(data: seq<byte>, k: nat): (r: (Token, nat))
    requires k < |data|
    ensures 1 <= r.1 <= MaxRun && k + r.1 <= |data|
  {
    if data[k] == 0 then
      var z := ZeroRun(data, k, 1);
      (if z == 1 then Literal(0) else Zeros(z), z)
    else
      (Literal(data[k]), 1)
  }

  /** The tokens of data[k..]. */
  function TokeniseFrom(data: seq<byte>, k: nat): seq<Token>
    decreases |data| - k
  {
    if k >= |data| then []
    else
      var (t, len) := TokenAt(data, k);
      [t] + TokeniseFrom(data, k + len)
  }

  /** A loop over data has consumed the tokens done, up to byte k. */
  ghost predicate Scanned(data: seq<byte>, k: nat, done: seq<Token>)
  {
    k <= |data| && Tokenise(data) == done + TokeniseFrom(data, k)
  }

  lemma {:induction false} ScannedAll(data: seq<byte>, k: nat, done: seq<Token>)
    requires Scanned(data, k, done) && k >= |data|
    ensures done == Tokenise(data)
  {
    assert TokeniseFrom(data, k) == [];
  }

  /** A loop that has consumed the tokens done, up to byte k, moves on by the token at k. */
  lemma {:induction false} TokenSplit(data: seq<byte>, k: nat, done: seq<Token>)
    requires k < |data| && Tokenise(data) == done + TokeniseFrom(data, k)
    ensures var tok, rest := TokenAt(data, k).0, TokeniseFrom(data, k + TokenAt(data, k).1);
      && Tokenise(data) == done + ([tok] + rest)
      && Tokenise(data) == (done + [tok]) + rest
  {
    var tok, rest := TokenAt(data, k).0, TokeniseFrom(data, k + TokenAt(data, k).1);
    assert TokeniseFrom(data, k) == [tok] + rest;
    assert done + ([tok] + rest) == (done + [tok]) + rest;
  }

  function Tokenise(data: seq<byte>): seq<Token>
  {
    TokeniseFrom(data, 0)
  }

  // ---------------------------------------------------------------------------
  // Properties of the tokeniser.

  /** Each run token falls in its bucket, and its count value fits in the bucket's extra bits. */
  lemma {:induction false} RunBuckets(c: RunLength)
    ensures var s := RunSymbol(c);
      && SymTwoZeros <= s <= SymUpTo16662Zeros
      && RunBase(s) <= c < RunBase(s) + Pow2(ExtraBits(s))
      && (s == SymTwoZeros <==> c == 2)
      && (s == SymUpTo6Zeros <==> 3 <= c <= 6)
      && (s == SymUpTo22Zeros <==> 7 <= c <= 22)
      && (s == SymUpTo278Zeros <==> 23 <= c <= 278)
      && (s == SymUpTo16662Zeros <==> 279 <= c <= 16662)
  {
    assert Pow2(2) == 4 && Pow2(4) == 16 && Pow2(8) == 256 && Pow2(14) == 16384;
  }

  /** Every token has a symbol of the alphabet and a count value that fits its extra bits. */
  lemma {:induction false} TokenFits(t: Token)
    ensures Symbol(t) < NumSymbols
    ensures Extra(t) < Pow2(ExtraBits(Symbol(t)))
    ensures Symbol(t) < 256 <==> t.Literal?
    ensures t.Zeros? ==> RunBase(Symbol(t)) + Extra(t) == t.count
  {
    if t.Zeros? {
      RunBuckets(t.count);
    }
  }

  /** The scanning loop's zero count: between 1 and MaxRun zeros, and as many as there are. */
  lemma {:induction false} ZeroRunIsMaximal(data: seq<byte>, k: nat, z: nat)
    requires 1 <= z <= MaxRun && k + z <= |data|
    requires forall i :: k < i < k + z ==> data[i] == 0
    ensures var r := ZeroRun(data, k, z);
      && (forall i :: k < i < k + r ==> data[i] == 0)
      && (r == MaxRun || k + r == |data| || data[k + r] != 0)
    decreases MaxRun - z
  {
    if z < MaxRun && k + z < |data| && data[k + z] == 0 {
      ZeroRunIsMaximal(data, k, z + 1);
    }
  }

  /** The token at k covers exactly the bytes it stands for; a lone zero is the literal 0. */
  lemma {:induction false} TokenAtCovers(data: seq<byte>, k: nat)
    requires k < |data|
    ensures var (t, len) := TokenAt(data, k);
      && Expand(t) == data[k..k + len]
      && (data[k] != 0 ==> t == Literal(data[k]))
      && (data[k] == 0 ==> (t == Literal(0) <==> len == 1))
      && (data[k] == 0 ==> (len == MaxRun || k + len == |data| || data[k + len] != 0))
  {
    if data[k] == 0 {
      ZeroRunIsMaximal(data, k, 1);
    }
  }

  /** Expanding the tokens of data[k..] gives back data[k..]: the token lengths add up to |data| - k. */
  lemma {:induction false} TokeniseFlatten(data: seq<byte>, k: nat)
    requires k <= |data|
    ensures Flatten(TokeniseFrom(data, k)) == data[k..]
    decreases |data| - k
  {
    if k < |data| {
      var j := k + TokenAt(data, k).1;
      var x, y, a := Flatten(TokeniseFrom(data, k)), Flatten(TokeniseFrom(data, j)), data[k..j];
      FlattenFirst(data, k);
      TokeniseFlatten(data, j);
      SlicesJoin(data, k, j);
      assert x == a + y;
      assert y == data[j..];
      assert data[k..] == a + data[j..];
    }
  }

  /** Expanding the tokens of data[k..] starts with the bytes the token at k covers. */
  lemma FlattenFirst(data: seq<byte>, k: nat)
    requires k < |data|
    ensures var j := k + TokenAt(data, k).1;
      Flatten(TokeniseFrom(data, k)) == data[k..j] + Flatten(TokeniseFrom(data, j))
  {
    var (t, len) := TokenAt(data, k);
    var ts := TokeniseFrom(data, k);
    assert ts[0] == t && ts[1..] == TokeniseFrom(data, k + len);
    TokenAtCovers(data, k);
  }

  /** The slice [k..j] of data followed by the slice [j..] is the slice [k..]. */
  lemma SlicesJoin(data: seq<byte>, k: nat, j: nat)
    requires k <= j <= |data|
    ensures data[k..] == data[k..j] + data[j..]
  {
  }

  /** Every token covers at least one byte, so a block has no more tokens than bytes. */
  lemma {:induction false} TokensAtMostBytes(data: seq<byte>, k: nat)
    requires k <= |data|
    ensures |TokeniseFrom(data, k)| <= |data| - k
    decreases |data| - k
  {
    if k < |data| {
      TokensAtMostBytes(data, k + TokenAt(data, k).1);
    }
  }

  lemma {:induction false} TokeniseRoundTrip(data: seq<byte>)
    ensures Flatten(Tokenise(data)) == data
  {
    TokeniseFlatten(data, 0);
  }

  function ZeroBytes(n: nat): seq<byte>
  {
    seq(n, _ => 0)
  }

  /**
   * A block of n zero bytes becomes maximal run tokens of MaxRun zeros followed by
   * one token for the rest: a lone zero is the literal 0, a longer rest one run token.
   */
  lemma {:induction false} ZeroBlockTokens(n: nat)
    ensures Tokenise(ZeroBytes(n))
         == if n == 0 then []
            else if n == 1 then [Literal(0)]
            else if n <= MaxRun then [Zeros(n)]
            else [Zeros(MaxRun)] + Tokenise(ZeroBytes(n - MaxRun))
  {
    var data := ZeroBytes(n);
    if n > 0 {
      ZeroRunIsMaximal(data, 0, 1);
      var z := ZeroRun(data, 0, 1);
      assert z == (if n < MaxRun then n else MaxRun);
      var ts := Tokenise(data);
      assert ts == [TokenAt(data, 0).0] + TokeniseFrom(data, z);
      if n > MaxRun {
        assert data[MaxRun..] == ZeroBytes(n - MaxRun);
        ShiftTokenise(data, MaxRun, ZeroBytes(n - MaxRun));
      }
    }
  }

  /** Tokenising from k depends only on data[k..]. */
  lemma {:induction false} ShiftTokenise(data: seq<byte>, k: nat, rest: seq<byte>)
    requires k <= |data| && data[k..] == rest
    ensures TokeniseFrom(data, k) == Tokenise(rest)
  {
    ShiftTokeniseFrom(data, k, rest, 0);
  }

  lemma {:induction false} ShiftTokeniseFrom(data: seq<byte>, k: nat, rest: seq<byte>, j: nat)
    requires k <= |data| && data[k..] == rest && j <= |rest|
    ensures TokeniseFrom(data, k + j) == TokeniseFrom(rest, j)
    decreases |rest| - j
  {
    if j < |rest| {
      ShiftZeroRun(data, k, rest, j, 1);
      var len := TokenAt(rest, j).1;
      ShiftTokeniseFrom(data, k, rest, j + len);
    }
  }

  lemma {:induction false} ShiftZeroRun(data: seq<byte>, k: nat, rest: seq<byte>, j: nat, z: nat)
    requires k <= |data| && data[k..] == rest && 1 <= z <= MaxRun && j + z <= |rest|
    ensures ZeroRun(data, k + j, z) == ZeroRun(rest, j, z)
    decreases MaxRun - z
  {
    if z < MaxRun && j + z < |rest| {
      assert data[k + j + z] == rest[j + z];
      ShiftZeroRun(data, k, rest, j, z + 1);
    }
  }

  /** Every symbol the tokeniser emits has a nonzero count in the histogram of the same block. */
  lemma {:induction false} EmittedSymbolsCounted(ts: seq<Token>, i: nat)
    requires i < |ts|
    ensures Occurrences(ts, Symbol(ts[i])) > 0
  {
    if i > 0 {
      EmittedSymbolsCounted(ts[1..], i - 1);
    }
  }

  lemma {:induction false} OccurrencesAppend(ts: seq<Token>, t: Token, s: nat)
    ensures Occurrences(ts + [t], s) == Occurrences(ts, s) + (if Symbol(t) == s then 1 else 0)
  {
    if ts != [] {
      assert (ts + [t])[1..] == ts[1..] + [t];
      OccurrencesAppend(ts[1..], t, s);
    } else {
      assert ts + [t] == [t];
    }
  }

  // ---------------------------------------------------------------------------
  // The histogram pass.

  /** Per-symbol record of the encoder: its symbol, its count and its code. */
  datatype SymbolInfo = SymbolInfo(symbol: nat, count: nat, code: nat, bits: nat)

  /** The zero-counting loop of Histogram and Compress, for a zero byte at k. */
  method ScanZeros(data: seq<byte>, k: nat) returns (zeros: nat)
    requires k < |data| && data[k] == 0
    ensures 1 <= zeros <= MaxRun && k + zeros <= |data|
    ensures forall i :: k <= i < k + zeros ==> data[i] == 0
    ensures zeros == MaxRun || k + zeros == |data| || data[k + zeros] != 0
    ensures zeros == ZeroRun(data, k, 1)
  {
    zeros := 1;
    while zeros < MaxRun && k + zeros < |data|
      invariant 1 <= zeros <= MaxRun && k + zeros <= |data|
      invariant forall i :: k <= i < k + zeros ==> data[i] == 0
      invariant ZeroRun(data, k, zeros) == ZeroRun(data, k, 1)
    {
      if data[k + zeros] != 0 {
        break;
      }
      zeros := zeros + 1;
    }
  }

  /** The symbol-table index whose count a token with the given zero count increments. */
  function ZeroCountSymbol(zeros: nat): nat
  {
    if zeros == 1 then 0
    else if zeros == 2 then SymTwoZeros
    else if zeros <= 6 then SymUpTo6Zeros
    else if zeros <= 22 then SymUpTo22Zeros
    else if zeros <= 278 then SymUpTo278Zeros
    else SymUpTo16662Zeros
  }

  lemma {:induction false} ZeroCountSymbolIsSymbol(data: seq<byte>, k: nat)
    requires k < |data|
    ensures var (t, len) := TokenAt(data, k);
      Symbol(t) == (if data[k] == 0 then ZeroCountSymbol(len) else data[k])
  {
  }

  /** The symbol table holds, for every symbol s, s and the number of tokens of ts with symbol s. */
  ghost predicate CountsOf(table: seq<SymbolInfo>, ts: seq<Token>)
  {
    |table| == NumSymbols &&
    forall s :: 0 <= s < NumSymbols ==> table[s] == SymbolInfo(s, Occurrences(ts, s), 0, 0)
  }

  lemma {:induction false} CountOneMore(table: seq<SymbolInfo>, ts: seq<Token>, t: Token)
    requires CountsOf(table, ts) && Symbol(t) < NumSymbols
    ensures var s := Symbol(t); CountsOf(table[s := table[s].(count := table[s].count + 1)], ts + [t])
  {
    forall s | 0 <= s < NumSymbols {
      OccurrencesAppend(ts, t, s);
    }
  }

  /** One step of Histogram's loop: counts the token at k and returns the number of bytes it covers. */
  method CountToken(data: seq<byte>, k: nat, symbols: array<SymbolInfo>, ghost done: seq<Token>) returns (step: nat)
    requires k < |data| && symbols.Length == NumSymbols && CountsOf(symbols[..], done)
    modifies symbols
    ensures CountsOf(symbols[..], done + [TokenAt(data, k).0])
    ensures step == TokenAt(data, k).1
  {
    ghost var t := TokenAt(data, k).0;
    var sym;
    if data[k] == 0 {
      var zeros := ScanZeros(data, k);
      sym, step := ZeroCountSymbol(zeros), zeros;
    } else {
      sym, step := data[k], 1;
    }
    assert sym == Symbol(t) && step == TokenAt(data, k).1 by {
      ZeroCountSymbolIsSymbol(data, k);
    }
    TokenFits(t);
    ghost var table := symbols[..];
    CountOneMore(table, done, t);
    symbols[sym] := symbols[sym].(count := symbols[sym].count + 1);
    assert symbols[..] == table[sym := table[sym].(count := table[sym].count + 1)];
  }

  /** Counts how often each symbol occurs in the tokenisation of the block. */
  method Histogram(data: seq<byte>, symbols: array<SymbolInfo>)
    requires symbols.Length == NumSymbols
    modifies symbols
    ensures forall s :: 0 <= s < NumSymbols ==>
              symbols[s] == SymbolInfo(s, Occurrences(Tokenise(data), s), 0, 0)
  {
    for s := 0 to NumSymbols
      invariant forall j :: 0 <= j < s ==> symbols[j] == SymbolInfo(j, 0, 0, 0)
    {
      symbols[s] := SymbolInfo(s, 0, 0, 0);
    }

    var k := 0;
    ghost var done: seq<Token> := [];
    assert CountsOf(symbols[..], done);
    while k < |data|
      invariant Scanned(data, k, done)
      invariant CountsOf(symbols[..], done)
      decreases |data| - k
    {
      ghost var t, len := TokenAt(data, k).0, TokenAt(data, k).1;
      var step := CountToken(data, k, symbols, done);
      ghost var next := done + [t];
      assert Scanned(data, k + len, next) by {
        TokenSplit(data, k, done);
      }
      done, k := next, k + step;
    }
    assert done == Tokenise(data) by {
      ScannedAll(data, k, done);
    }
    assert CountsOf(symbols[..], Tokenise(data));
  }
}
