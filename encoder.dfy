/**
 * The encoder: the Huffman tree builder (MakeTree), the depth-first tree
 * writer that also assigns the codes (StoreTree) and the block compressor.
 */
module Encoder {
  import opened Bits
  import opened Tokens
  import opened HuffTree
  import opened Bitstream

  // ---------------------------------------------------------------------------
  // Ordering the symbol table by symbol (the bubble sort of Compress).

  ghost predicate SortedBySymbol(s: seq<SymbolInfo>)
  {
    forall i, j :: 0 <= i < j < |s| ==> s[i].symbol <= s[j].symbol
  }

  /** The last p entries are in order and none is smaller than an entry before it. */
  ghost predicate SettledSuffix(s: seq<SymbolInfo>, p: nat)
  {
    forall i, j :: 0 <= i < j < |s| && j >= |s| - p ==> s[i].symbol <= s[j].symbol
  }

  /**
   * Passes of adjacent swaps until a pass swaps nothing. After p passes the
   * last p entries are settled, which bounds the number of passes.
   */
  method SortBySymbol(symbols: array<SymbolInfo>)
    requires symbols.Length == NumSymbols
    modifies symbols
    ensures SortedBySymbol(symbols[..])
    ensures multiset(symbols[..]) == multiset(old(symbols[..]))
    ensures SortedBySymbol(old(symbols[..])) ==> symbols[..] == old(symbols[..])
  {
    ghost var passes: nat := 0;
    var swaps := true;
    while swaps
      invariant passes <= NumSymbols && (swaps ==> passes <= NumSymbols - 1)
      invariant SettledSuffix(symbols[..], passes)
      invariant !swaps ==> SortedBySymbol(symbols[..])
      invariant multiset(symbols[..]) == multiset(old(symbols[..]))
      invariant SortedBySymbol(old(symbols[..])) ==> symbols[..] == old(symbols[..]) && (passes > 0 ==> !swaps)
      decreases NumSymbols - passes
    {
      ghost var start := symbols[..];
      swaps := SortPass(symbols, passes);
      if passes == NumSymbols - 1 {
        assert SortedBySymbol(start);
      }
      passes := passes + 1;
    }
  }

  /** One pass of the bubble sort; it settles one more entry at the end. */
  method SortPass(symbols: array<SymbolInfo>, ghost passes: nat) returns (swaps: bool)
    requires symbols.Length == NumSymbols && passes < NumSymbols
    requires SettledSuffix(symbols[..], passes)
    modifies symbols
    ensures multiset(symbols[..]) == multiset(old(symbols[..]))
    ensures SettledSuffix(symbols[..], passes + 1)
    ensures !swaps ==> symbols[..] == old(symbols[..]) && SortedBySymbol(symbols[..])
    ensures SortedBySymbol(old(symbols[..])) ==> !swaps
  {
    swaps := false;
    for k := 0 to NumSymbols - 1
      invariant PassInvariant(symbols[..], old(symbols[..]), k, passes, swaps)
    {
      ghost var before, swapsBefore := symbols[..], swaps;
      if symbols[k].symbol > symbols[k + 1].symbol {
        symbols[k], symbols[k + 1] := symbols[k + 1], symbols[k];
        swaps := true;
        assert symbols[..] == before[k := before[k + 1]][k + 1 := before[k]];
      }
      PassStep(before, old(symbols[..]), k, passes, swapsBefore);
    }
    PassEnd(symbols[..], old(symbols[..]), passes, swaps);
  }

  lemma {:induction false} PassEnd(s: seq<SymbolInfo>, start: seq<SymbolInfo>, passes: nat, swaps: bool)
    requires |s| > 0 && PassInvariant(s, start, |s| - 1, passes, swaps)
    ensures multiset(s) == multiset(start)
    ensures SettledSuffix(s, passes + 1)
    ensures !swaps ==> s == start && SortedBySymbol(s)
    ensures SortedBySymbol(start) ==> !swaps
  {
  }

  /** The state of a pass before comparing entries k and k + 1. */
  ghost predicate PassInvariant(s: seq<SymbolInfo>, start: seq<SymbolInfo>, k: nat, passes: nat, swaps: bool)
  {
    var edge := |s| - passes - 1;
    && |s| == |start| && k < |s| && passes < |s|
    // entry k is the largest seen so far
    && (forall i :: 0 <= i <= k ==> s[i].symbol <= s[k].symbol)
    && SettledSuffix(s, passes)
    && multiset(s) == multiset(start)
    && (!swaps ==> s == start && forall i, j :: 0 <= i < j <= k ==> s[i].symbol <= s[j].symbol)
    && (SortedBySymbol(start) ==> !swaps)
    && (k > edge ==> forall i :: 0 <= i < edge ==> s[i].symbol <= s[edge].symbol)
  }

  lemma {:induction false} PassStep(s: seq<SymbolInfo>, start: seq<SymbolInfo>, k: nat, passes: nat, swaps: bool)
    requires k + 1 < |s| && PassInvariant(s, start, k, passes, swaps)
    ensures var swap := s[k].symbol > s[k + 1].symbol;
      PassInvariant(if swap then s[k := s[k + 1]][k + 1 := s[k]] else s, start, k + 1, passes, swaps || swap)
  {
    if s[k].symbol > s[k + 1].symbol {
      PassSwap(s, start, k, passes, swaps);
    }
  }

  lemma {:induction false} PassSwap(s: seq<SymbolInfo>, start: seq<SymbolInfo>, k: nat, passes: nat, swaps: bool)
    requires k + 1 < |s| && PassInvariant(s, start, k, passes, swaps)
    requires s[k].symbol > s[k + 1].symbol
    ensures PassInvariant(s[k := s[k + 1]][k + 1 := s[k]], start, k + 1, passes, true)
  {
    var s' := s[k := s[k + 1]][k + 1 := s[k]];
    SwapKeepsMultiset(s, k);
    forall i | 0 <= i <= k + 1
      ensures s'[i].symbol <= s'[k + 1].symbol
    {
    }
  }

  /** Swapping two neighbours keeps the entries. */
  lemma {:induction false} SwapKeepsMultiset(s: seq<SymbolInfo>, k: nat)
    requires k + 1 < |s|
    ensures multiset(s[k := s[k + 1]][k + 1 := s[k]]) == multiset(s)
  {
    var s1 := s[k := s[k + 1]];
    assert multiset(s1) == multiset(s) - multiset{s[k]} + multiset{s[k + 1]};
  }

  // ---------------------------------------------------------------------------
  // The symbols the table counts.

  /** Each symbol below k whose count is nonzero, once. */
  ghost function UsedLeaves(table: seq<SymbolInfo>, k: nat): (r: multiset<nat>)
    requires k <= |table|
    ensures |r| <= k
  {
    if k == 0 then multiset{}
    else UsedLeaves(table, k - 1) + (if table[k - 1].count > 0 then multiset{k - 1} else multiset{})
  }

  lemma {:induction false} UsedLeavesCount(table: seq<SymbolInfo>, k: nat, s: nat)
    requires k <= |table|
    ensures UsedLeaves(table, k)[s] == if s < k && table[s].count > 0 then 1 else 0
  {
    if k > 0 {
      UsedLeavesCount(table, k - 1, s);
      var extra: multiset<nat> := if table[k - 1].count > 0 then multiset{k - 1} else multiset{};
      assert UsedLeaves(table, k)[s] == UsedLeaves(table, k - 1)[s] + extra[s];
    }
  }

  /** The sum of the counts of the first k entries. */
  function TotalCount(table: seq<SymbolInfo>, k: nat): nat
    requires k <= |table|
  {
    if k == 0 then 0 else TotalCount(table, k - 1) + table[k - 1].count
  }

  // ---------------------------------------------------------------------------
  // The encoder's node arena.

  /** A node of MakeTree's array: a leaf (symbol >= 0) or a branch (symbol -1) over two other nodes. */
  datatype EncodeNode = EncodeNode(childA: int, childB: int, count: nat, symbol: int)

  /**
   * ts[i] is the tree rooted at node i: a node with a symbol is that leaf, any
   * other node joins the trees of two earlier nodes.
   */
  ghost predicate Forest(s: seq<EncodeNode>, ts: seq<Tree>)
  {
    && |s| == |ts|
    && forall i {:trigger s[i]} :: 0 <= i < |s| ==>
         if s[i].symbol >= 0 then ts[i] == Leaf(s[i].symbol)
         else 0 <= s[i].childA < i && 0 <= s[i].childB < i && ts[i] == Branch(ts[s[i].childA], ts[s[i].childB])
  }

  /** A node is still to be joined while its count is nonzero. */
  function ActiveCount(s: seq<EncodeNode>): nat
  {
    if s == [] then 0 else ActiveCount(s[..|s| - 1]) + (if s[|s| - 1].count > 0 then 1 else 0)
  }

  /** The leaves of the trees still to be joined. */
  ghost function ActiveLeaves(s: seq<EncodeNode>, ts: seq<Tree>): multiset<nat>
    requires |s| == |ts|
  {
    if s == [] then multiset{}
    else
      var m := |s| - 1;
      ActiveLeaves(s[..m], ts[..m]) + (if s[m].count > 0 then Leaves(ts[m]) else multiset{})
  }

  function CountSum(s: seq<EncodeNode>): nat
  {
    if s == [] then 0 else CountSum(s[..|s| - 1]) + s[|s| - 1].count
  }

  /** Joining node j (setting its count to 0) removes its tree from the trees still to be joined. */
  lemma {:induction false} ZeroCount(s: seq<EncodeNode>, ts: seq<Tree>, j: nat)
    requires |s| == |ts| && j < |s| && s[j].count > 0
    ensures ActiveLeaves(s[j := s[j].(count := 0)], ts) + Leaves(ts[j]) == ActiveLeaves(s, ts)
    ensures ActiveCount(s[j := s[j].(count := 0)]) + 1 == ActiveCount(s)
    ensures CountSum(s[j := s[j].(count := 0)]) + s[j].count == CountSum(s)
    decreases |s|
  {
    var z := s[j := s[j].(count := 0)];
    var m := |s| - 1;
    if j == m {
      assert z[..m] == s[..m];
    } else {
      assert z[..m] == s[..m][j := s[j].(count := 0)];
      ZeroCount(s[..m], ts[..m], j);
    }
  }

  /** A new node at the end adds its tree to the trees still to be joined. */
  lemma {:induction false} AppendNode(s: seq<EncodeNode>, ts: seq<Tree>, x: EncodeNode, t: Tree)
    requires |s| == |ts|
    ensures ActiveLeaves(s + [x], ts + [t]) == ActiveLeaves(s, ts) + (if x.count > 0 then Leaves(t) else multiset{})
    ensures ActiveCount(s + [x]) == ActiveCount(s) + (if x.count > 0 then 1 else 0)
    ensures CountSum(s + [x]) == CountSum(s) + x.count
  {
    assert (s + [x])[..|s|] == s && (ts + [t])[..|s|] == ts;
  }

  /** With a single tree left to join, it holds every leaf and the whole count. */
  lemma {:induction false} SoleActive(s: seq<EncodeNode>, ts: seq<Tree>, r: nat)
    requires |s| == |ts| && r < |s| && s[r].count > 0 && ActiveCount(s) == 1
    ensures ActiveLeaves(s, ts) == Leaves(ts[r]) && CountSum(s) == s[r].count
    decreases |s|
  {
    var m := |s| - 1;
    if r == m {
      NoneActive(s[..m], ts[..m]);
    } else {
      assert s[..m][r] == s[r];
      ActivePositive(s[..m], r);
      SoleActive(s[..m], ts[..m], r);
    }
  }

  lemma {:induction false} ActivePositive(s: seq<EncodeNode>, r: nat)
    requires r < |s| && s[r].count > 0
    ensures ActiveCount(s) >= 1
    decreases |s|
  {
    var m := |s| - 1;
    if r < m {
      assert s[..m][r] == s[r];
      ActivePositive(s[..m], r);
    }
  }

  lemma {:induction false} NoneActive(s: seq<EncodeNode>, ts: seq<Tree>)
    requires |s| == |ts| && ActiveCount(s) == 0
    ensures ActiveLeaves(s, ts) == multiset{} && CountSum(s) == 0
    decreases |s|
  {
    if s != [] {
      NoneActive(s[..|s| - 1], ts[..|s| - 1]);
    }
  }

  lemma {:induction false} TwoActive(s: seq<EncodeNode>)
    requires ActiveCount(s) >= 2
    ensures exists i, j :: 0 <= i < j < |s| && s[i].count > 0 && s[j].count > 0
    decreases |s|
  {
    var m := |s| - 1;
    if ActiveCount(s[..m]) >= 2 {
      TwoActive(s[..m]);
      var i, j :| 0 <= i < j < m && s[..m][i].count > 0 && s[..m][j].count > 0;
      assert s[i] == s[..m][i] && s[j] == s[..m][j];
    } else {
      ActiveWitness(s[..m]);
      var i :| 0 <= i < m && s[..m][i].count > 0;
      assert s[i].count > 0 && s[m].count > 0;
    }
  }

  lemma {:induction false} ActiveWitness(s: seq<EncodeNode>)
    requires ActiveCount(s) >= 1
    ensures exists i :: 0 <= i < |s| && s[i].count > 0
    decreases |s|
  {
    var m := |s| - 1;
    if s[m].count == 0 {
      ActiveWitness(s[..m]);
      var i :| 0 <= i < m && s[..m][i].count > 0;
      assert s[i] == s[..m][i];
    }
  }

  // ---------------------------------------------------------------------------
  // Building the tree (MakeTree's joining loop).

  /** The two lightest nodes still to be joined, scanning them in order as MakeTree does. */
  method FindTwoLightest(nodes: array<EncodeNode>, next: nat) returns (n1: nat, n2: nat)
    requires next <= nodes.Length && ActiveCount(nodes[..next]) >= 2
    ensures n1 < next && n2 < next && n1 != n2
    ensures nodes[n1].count > 0 && nodes[n2].count > 0 && nodes[n1].count <= nodes[n2].count
    ensures forall k :: 0 <= k < next && nodes[k].count > 0 ==> nodes[n1].count <= nodes[k].count
    ensures forall k :: 0 <= k < next && nodes[k].count > 0 && k != n1 ==> nodes[n2].count <= nodes[k].count
  {
    // -1 stands for the source's null node pointer.
    var node1, node2 := -1, -1;
    for k := 0 to next
      invariant -1 <= node1 < k && -1 <= node2 < k
      invariant node1 == -1 ==> node2 == -1
      invariant node1 >= 0 ==> nodes[node1].count > 0
      invariant node2 >= 0 ==> nodes[node2].count > 0 && node2 != node1 && nodes[node1].count <= nodes[node2].count
      invariant forall j :: 0 <= j < k && nodes[j].count > 0 ==> node1 >= 0 && nodes[node1].count <= nodes[j].count
      invariant forall j :: 0 <= j < k && nodes[j].count > 0 && j != node1 ==> node2 >= 0 && nodes[node2].count <= nodes[j].count
    {
      if nodes[k].count > 0 {
        if node1 == -1 || nodes[k].count <= nodes[node1].count {
          node2 := node1;
          node1 := k;
        } else if node2 == -1 || nodes[k].count <= nodes[node2].count {
          node2 := k;
        }
      }
    }
    TwoActive(nodes[..next]);
    var i, j :| 0 <= i < j < next && nodes[..next][i].count > 0 && nodes[..next][j].count > 0;
    assert nodes[i].count > 0 && nodes[j].count > 0;
    n1, n2 := node1, node2;
  }

  /** Clearing the count of node j changes no link of the forest. */
  lemma {:induction false} ZeroKeepsForest(s: seq<EncodeNode>, ts: seq<Tree>, j: nat)
    requires Forest(s, ts) && j < |s|
    ensures Forest(s[j := s[j].(count := 0)], ts)
  {
    var z := s[j := s[j].(count := 0)];
    forall i | 0 <= i < |z|
      ensures z[i].symbol == s[i].symbol && z[i].childA == s[i].childA && z[i].childB == s[i].childB
    {
    }
  }

  /** A node joining two earlier ones extends the forest with their branch. */
  lemma {:induction false} JoinKeepsForest(s: seq<EncodeNode>, ts: seq<Tree>, x: EncodeNode)
    requires Forest(s, ts) && x.symbol < 0 && 0 <= x.childA < |s| && 0 <= x.childB < |s|
    ensures Forest(s + [x], ts + [Branch(ts[x.childA], ts[x.childB])])
  {
    var s', ts' := s + [x], ts + [Branch(ts[x.childA], ts[x.childB])];
    forall i | 0 <= i < |s'|
      ensures if s'[i].symbol >= 0 then ts'[i] == Leaf(s'[i].symbol)
        else 0 <= s'[i].childA < i && 0 <= s'[i].childB < i && ts'[i] == Branch(ts'[s'[i].childA], ts'[s'[i].childB])
    {
      if i < |s| {
        assert s'[i] == s[i] && ts'[i] == ts[i];
        if s[i].symbol < 0 {
          assert ts'[s[i].childA] == ts[s[i].childA] && ts'[s[i].childB] == ts[s[i].childB];
        }
      }
    }
  }

  /** Joining n1 and n2 under a new node x at the end keeps the forest and the leaves to be joined. */
  lemma {:induction false} JoinNodes(s: seq<EncodeNode>, ts: seq<Tree>, n1: nat, n2: nat, x: EncodeNode, s': seq<EncodeNode>)
    requires Forest(s, ts) && n1 < |s| && n2 < |s| && n1 != n2 && s[n1].count > 0 && s[n2].count > 0
    requires x == EncodeNode(n1, n2, s[n1].count + s[n2].count, -1)
    requires s' == s[n1 := s[n1].(count := 0)][n2 := s[n2].(count := 0)] + [x]
    ensures Forest(s', ts + [Branch(ts[n1], ts[n2])])
    ensures ActiveLeaves(s', ts + [Branch(ts[n1], ts[n2])]) == ActiveLeaves(s, ts)
    ensures ActiveCount(s') + 1 == ActiveCount(s)
    ensures CountSum(s') == CountSum(s)
  {
    var z1 := s[n1 := s[n1].(count := 0)];
    var z2 := z1[n2 := z1[n2].(count := 0)];
    assert z1[n2] == s[n2];
    assert s' == z2 + [x];
    ZeroCount(s, ts, n1);
    ZeroCount(z1, ts, n2);
    ZeroKeepsForest(s, ts, n1);
    ZeroKeepsForest(z1, ts, n2);
    AppendNode(z2, ts, x, Branch(ts[n1], ts[n2]));
    JoinKeepsForest(z2, ts, x);
  }

  /** The number of symbols below j with a nonzero count: the index of symbol j's leaf node. */
  function Rank(table: seq<SymbolInfo>, j: nat): (r: nat)
    requires j <= |table|
    ensures r <= j
  {
    if j == 0 then 0 else Rank(table, j - 1) + if table[j - 1].count > 0 then 1 else 0
  }

  /**
   * Node i is the leaf of the i-th symbol below k with a nonzero count: a
   * symbol j with exactly i such symbols below it. There is one node per
   * such symbol.
   */
  ghost predicate InSymbolOrder(s: seq<EncodeNode>, table: seq<SymbolInfo>, k: nat)
    requires k <= |table|
  {
    && |s| == Rank(table, k)
    && forall i :: 0 <= i < |s| ==>
         && 0 <= s[i].symbol < k && table[s[i].symbol].count > 0 && Rank(table, s[i].symbol) == i
         && s[i] == EncodeNode(-1, -1, table[s[i].symbol].count, s[i].symbol)
  }

  lemma {:induction false} PlacedInOrder(s: seq<EncodeNode>, table: seq<SymbolInfo>, k: nat)
    requires k < |table| && InSymbolOrder(s, table, k)
    ensures table[k].count == 0 ==> InSymbolOrder(s, table, k + 1)
    ensures table[k].count > 0 ==> InSymbolOrder(s + [EncodeNode(-1, -1, table[k].count, k)], table, k + 1)
  {
    var x := EncodeNode(-1, -1, table[k].count, k);
    var s' := s + [x];
    if table[k].count > 0 {
      forall i | 0 <= i < |s'|
        ensures && 0 <= s'[i].symbol < k + 1 && table[s'[i].symbol].count > 0 && Rank(table, s'[i].symbol) == i
                && s'[i] == EncodeNode(-1, -1, table[s'[i].symbol].count, s'[i].symbol)
      {
        if i < |s| {
          assert s'[i] == s[i];
        }
      }
    }
  }

  /** After the first k table entries: one active leaf node per used symbol below k, in symbol order. */
  ghost predicate LeavesPlaced(s: seq<EncodeNode>, ts: seq<Tree>, table: seq<SymbolInfo>, k: nat)
  {
    && k <= |table| && InSymbolOrder(s, table, k) && Forest(s, ts)
    && (forall i :: 0 <= i < |s| ==> s[i].count > 0)
    && ActiveLeaves(s, ts) == UsedLeaves(table, k)
    && ActiveCount(s) == |s| == |UsedLeaves(table, k)|
    && CountSum(s) == TotalCount(table, k)
  }

  lemma {:induction false} PlaceStep(s: seq<EncodeNode>, ts: seq<Tree>, table: seq<SymbolInfo>, k: nat)
    requires k < |table| && LeavesPlaced(s, ts, table, k)
    ensures table[k].count == 0 ==> LeavesPlaced(s, ts, table, k + 1)
    ensures table[k].count > 0 ==>
      LeavesPlaced(s + [EncodeNode(-1, -1, table[k].count, k)], ts + [Leaf(k)], table, k + 1)
  {
    if table[k].count > 0 {
      var x := EncodeNode(-1, -1, table[k].count, k);
      AppendNode(s, ts, x, Leaf(k));
      LeafKeepsForest(s, ts, x);
    }
    PlacedInOrder(s, table, k);
  }

  /** MakeTree's first loop: one leaf node per used symbol, in symbol order. */
  method PlaceLeaves(sym: array<SymbolInfo>, nodes: array<EncodeNode>) returns (num: nat, ghost ts: seq<Tree>)
    requires sym.Length == NumSymbols && nodes.Length == MaxTreeNodes
    requires forall k :: 0 <= k < NumSymbols ==> sym[k].symbol == k
    modifies nodes
    ensures num <= NumSymbols && LeavesPlaced(nodes[..num], ts, sym[..], NumSymbols)
  {
    num := 0;
    ts := [];
    ghost var table := sym[..];
    for k := 0 to NumSymbols
      invariant num <= k && LeavesPlaced(nodes[..num], ts, table, k)
    {
      num, ts := PlaceOne(sym, nodes, k, num, ts);
    }
  }

  /** One turn of MakeTree's first loop: a leaf node for symbol k when its count is nonzero. */
  method PlaceOne(sym: array<SymbolInfo>, nodes: array<EncodeNode>, k: nat, num: nat, ghost ts: seq<Tree>)
      returns (num': nat, ghost ts': seq<Tree>)
    requires sym.Length == NumSymbols && nodes.Length == MaxTreeNodes && k < NumSymbols && num <= k
    requires sym[k].symbol == k
    requires LeavesPlaced(nodes[..num], ts, sym[..], k)
    modifies nodes
    ensures num' <= k + 1 && LeavesPlaced(nodes[..num'], ts', sym[..], k + 1)
  {
    ghost var before := nodes[..num];
    PlaceStep(before, ts, sym[..], k);
    num', ts' := num, ts;
    if sym[k].count > 0 {
      var x := EncodeNode(-1, -1, sym[k].count, sym[k].symbol);
      nodes[num] := x;
      assert nodes[..num + 1] == before + [x];
      ts' := ts + [Leaf(k)];
      num' := num + 1;
    }
  }

  lemma {:induction false} LeafKeepsForest(s: seq<EncodeNode>, ts: seq<Tree>, x: EncodeNode)
    requires Forest(s, ts) && x.symbol >= 0
    ensures Forest(s + [x], ts + [Leaf(x.symbol)])
  {
    var s', ts' := s + [x], ts + [Leaf(x.symbol)];
    forall i | 0 <= i < |s'|
      ensures if s'[i].symbol >= 0 then ts'[i] == Leaf(s'[i].symbol)
        else 0 <= s'[i].childA < i && 0 <= s'[i].childB < i && ts'[i] == Branch(ts'[s'[i].childA], ts'[s'[i].childB])
    {
      if i < |s| {
        assert s'[i] == s[i] && ts'[i] == ts[i];
        if s[i].symbol < 0 {
          assert ts'[s[i].childA] == ts[s[i].childA] && ts'[s[i].childB] == ts[s[i].childB];
        }
      }
    }
  }

  /**
   * The state of MakeTree's joining loop: num leaves were placed, left nodes
   * are still to be joined, and they hold the leaves and the total count the
   * placed leaves held. root is the last joined node, or -1 before the first join.
   */
  ghost predicate Joining(s: seq<EncodeNode>, ts: seq<Tree>, num: nat, left: nat, root: int, leaves: multiset<nat>, total: nat)
  {
    && left <= num <= NumSymbols && (num >= 1 ==> left >= 1)
    && |s| == 2 * num - left
    && Forest(s, ts)
    && ActiveCount(s) == left
    && ActiveLeaves(s, ts) == leaves
    && CountSum(s) == total
    && root >= -1 && (root == -1 <==> |s| == num)
    && (root == -1 ==> forall i :: 0 <= i < |s| ==> s[i].count > 0)
    && (root >= 0 ==> root == |s| - 1 && s[root].count > 0)
  }

  lemma {:induction false} JoinStep(s: seq<EncodeNode>, ts: seq<Tree>, num: nat, left: nat, root: int, leaves: multiset<nat>, total: nat,
                 n1: nat, n2: nat)
    requires Joining(s, ts, num, left, root, leaves, total) && left > 1
    requires n1 < |s| && n2 < |s| && n1 != n2 && s[n1].count > 0 && s[n2].count > 0
    ensures Joining(Joined(s, n1, n2), ts + [Branch(ts[n1], ts[n2])], num, left - 1, |s|, leaves, total)
  {
    var x := EncodeNode(n1, n2, s[n1].count + s[n2].count, -1);
    JoinNodes(s, ts, n1, n2, x, Joined(s, n1, n2));
  }

  lemma {:induction false} JoinDone(s: seq<EncodeNode>, ts: seq<Tree>, num: nat, root: int, leaves: multiset<nat>, total: nat)
    requires Joining(s, ts, num, 1, root, leaves, total)
    ensures var r := if root >= 0 then root else 0;
      && 0 <= r < |s| == 2 * num - 1
      && Leaves(ts[r]) == leaves && s[r].count == total
  {
    var r := if root >= 0 then root else 0;
    if root == -1 {
      assert s[0].count > 0;
    }
    SoleActive(s, ts, r);
  }

  /** The arena after joining n1 and n2 under a new last node. */
  function Joined(s: seq<EncodeNode>, n1: nat, n2: nat): (r: seq<EncodeNode>)
    requires n1 < |s| && n2 < |s| && n1 != n2
    ensures |r| == |s| + 1 && r[n1].count == 0 && r[n2].count == 0
    ensures r[|s|] == EncodeNode(n1, n2, s[n1].count + s[n2].count, -1)
    ensures forall i :: 0 <= i < |s| && i != n1 && i != n2 ==> r[i] == s[i]
  {
    s[n1 := s[n1].(count := 0)][n2 := s[n2].(count := 0)] + [EncodeNode(n1, n2, s[n1].count + s[n2].count, -1)]
  }

  /** One join: node next becomes the parent of n1 and n2, whose counts are cleared. */
  method JoinAt(nodes: array<EncodeNode>, next: nat, n1: nat, n2: nat)
    requires next < nodes.Length && n1 < next && n2 < next && n1 != n2
    modifies nodes
    ensures nodes[..next + 1] == Joined(old(nodes[..next]), n1, n2)
  {
    ghost var before := nodes[..next];
    var x := EncodeNode(n1, n2, nodes[n1].count + nodes[n2].count, -1);
    nodes[next] := x;
    nodes[n1] := nodes[n1].(count := 0);
    nodes[n2] := nodes[n2].(count := 0);
    assert nodes[..next + 1] == before[n1 := before[n1].(count := 0)][n2 := before[n2].(count := 0)] + [x];
  }

  /**
   * MakeTree's joining loop: while two or more nodes are left, the two
   * lightest are joined under a new node. root is -1 (the source's null
   * root) when nothing was joined.
   */
  method JoinTrees(nodes: array<EncodeNode>, num: nat, ghost ts0: seq<Tree>) returns (root: int, next: nat, ghost ts: seq<Tree>)
    requires nodes.Length == MaxTreeNodes && num <= NumSymbols && Forest(nodes[..num], ts0)
    requires forall i :: 0 <= i < num ==> nodes[i].count > 0
    requires ActiveCount(nodes[..num]) == num
    modifies nodes
    ensures next <= MaxTreeNodes && Forest(nodes[..next], ts)
    ensures root == -1 <==> num <= 1
    ensures num == 0 ==> next == 0
    ensures num >= 1 ==>
      var r := if root >= 0 then root else 0;
      && 0 <= r < next == 2 * num - 1
      && Leaves(ts[r]) == old(ActiveLeaves(nodes[..num], ts0))
      && nodes[r].count == old(CountSum(nodes[..num]))
  {
    ghost var leaves, total := ActiveLeaves(nodes[..num], ts0), CountSum(nodes[..num]);
    ts := ts0;
    root := -1;
    var left := num;
    next := num;
    while left > 1
      invariant next <= nodes.Length && Joining(nodes[..next], ts, num, left, root, leaves, total)
      decreases left
    {
      var n1, n2 := FindTwoLightest(nodes, next);
      ghost var before := nodes[..next];
      ghost var after, ts' := Joined(before, n1, n2), ts + [Branch(ts[n1], ts[n2])];
      JoinStep(before, ts, num, left, root, leaves, total, n1, n2);
      JoinAt(nodes, next, n1, n2);
      assert nodes[..next + 1] == after;
      root, ts, next, left := next, ts', next + 1, left - 1;
      assert Joining(after, ts, num, left, root, leaves, total);
    }
    JoinFinish(nodes[..next], ts, num, left, root, leaves, total);
  }

  /** What the joining loop leaves once at most one node is active. */
  lemma {:induction false} JoinFinish(s: seq<EncodeNode>, ts: seq<Tree>, num: nat, left: nat, root: int,
                                      leaves: multiset<nat>, total: nat)
    requires Joining(s, ts, num, left, root, leaves, total) && left <= 1
    ensures |s| <= MaxTreeNodes && Forest(s, ts)
    ensures root == -1 <==> num <= 1
    ensures num == 0 ==> |s| == 0
    ensures num >= 1 ==>
      var r := if root >= 0 then root else 0;
      && 0 <= r < |s| == 2 * num - 1
      && Leaves(ts[r]) == leaves && s[r].count == total
  {
    if num >= 1 {
      JoinDone(s, ts, num, root, leaves, total);
    }
  }

  /** MakeTree up to the storing of the tree: the leaves, then the joining loop. */
  method BuildTree(sym: array<SymbolInfo>, nodes: array<EncodeNode>) returns (root: int, next: nat, ghost ts: seq<Tree>)
    requires sym.Length == NumSymbols && nodes.Length == MaxTreeNodes
    requires forall k :: 0 <= k < NumSymbols ==> sym[k].symbol == k
    modifies nodes
    ensures next <= MaxTreeNodes && Forest(nodes[..next], ts) && root >= -1
    ensures var used := UsedLeaves(sym[..], NumSymbols);
      && (root == -1 <==> |used| <= 1)
      && (|used| == 0 ==> next == 0)
      && (|used| >= 1 ==>
            var r := if root >= 0 then root else 0;
            && 0 <= r < next == 2 * |used| - 1
            && Leaves(ts[r]) == used
            && nodes[r].count == TotalCount(sym[..], NumSymbols))
  {
    var num, ts0 := PlaceLeaves(sym, nodes);
    assert ActiveCount(nodes[..num]) == num;
    root, next, ts := JoinTrees(nodes, num, ts0);
  }

  // ---------------------------------------------------------------------------
  // Storing the tree.

  /**
   * after is before with every leaf symbol k of t given the code prefix + its
   * path in t (code bits least significant first, bits their number).
   */
  ghost predicate CodesStored(before: seq<SymbolInfo>, after: seq<SymbolInfo>, t: Tree, prefix: seq<bool>)
  {
    && |before| == |after| == NumSymbols
    && forall k :: 0 <= k < NumSymbols ==>
         after[k] == if k in Leaves(t)
                     then before[k].(code := Value(prefix + Path(t, k)), bits := |prefix + Path(t, k)|)
                     else before[k]
  }

  /** Storing codes leaves each entry's symbol field as it was. */
  lemma {:induction false} StoredKeepsSymbols(before: seq<SymbolInfo>, after: seq<SymbolInfo>, t: Tree, prefix: seq<bool>)
    requires CodesStored(before, after, t, prefix)
    requires forall k :: 0 <= k < NumSymbols ==> before[k].symbol == k
    ensures forall k :: 0 <= k < NumSymbols ==> after[k].symbol == k
  {
    forall k | 0 <= k < NumSymbols ensures after[k].symbol == k {
      assert after[k].symbol == before[k].symbol;
    }
  }

  /** Storing child A under prefix+0 and then child B under prefix+1 stores the branch under prefix. */
  lemma {:induction false} CodesOfBranch(s0: seq<SymbolInfo>, s1: seq<SymbolInfo>, s2: seq<SymbolInfo>, t: Tree, prefix: seq<bool>)
    requires t.Branch? && DistinctLeaves(t)
    requires CodesStored(s0, s1, t.a, prefix + [false]) && CodesStored(s1, s2, t.b, prefix + [true])
    ensures CodesStored(s0, s2, t, prefix)
  {
    DistinctChildren(t);
    forall k | 0 <= k < NumSymbols
      ensures s2[k] == if k in Leaves(t)
                       then s0[k].(code := Value(prefix + Path(t, k)), bits := |prefix + Path(t, k)|)
                       else s0[k]
    {
      StoredAt(s0, s1, t.a, prefix + [false], k);
      StoredAt(s1, s2, t.b, prefix + [true], k);
      CodeOfBranchAt(s0[k], s1[k], s2[k], t, prefix, k);
    }
  }

  lemma {:induction false} StoredAt(before: seq<SymbolInfo>, after: seq<SymbolInfo>, t: Tree, prefix: seq<bool>, k: nat)
    requires CodesStored(before, after, t, prefix) && k < NumSymbols
    ensures after[k] == if k in Leaves(t)
                        then before[k].(code := Value(prefix + Path(t, k)), bits := |prefix + Path(t, k)|)
                        else before[k]
  {
  }

  /** Entry k after storing both children: set by the child that holds k, or left alone. */
  lemma {:induction false} CodeOfBranchAt(e0: SymbolInfo, e1: SymbolInfo, e2: SymbolInfo, t: Tree, prefix: seq<bool>, k: nat)
    requires t.Branch? && (forall s :: s in Leaves(t.a) ==> s !in Leaves(t.b))
    requires e1 == if k in Leaves(t.a)
                   then e0.(code := Value(prefix + [false] + Path(t.a, k)), bits := |prefix + [false] + Path(t.a, k)|)
                   else e0
    requires e2 == if k in Leaves(t.b)
                   then e1.(code := Value(prefix + [true] + Path(t.b, k)), bits := |prefix + [true] + Path(t.b, k)|)
                   else e1
    ensures e2 == if k in Leaves(t)
                  then e0.(code := Value(prefix + Path(t, k)), bits := |prefix + Path(t, k)|)
                  else e0
  {
    if k in Leaves(t.a) {
      assert k !in Leaves(t.b);
      assert Path(t, k) == [false] + Path(t.a, k);
      AppendAssoc(prefix, [false], Path(t.a, k));
    } else if k in Leaves(t.b) {
      assert Path(t, k) == [true] + Path(t.b, k);
      AppendAssoc(prefix, [true], Path(t.b, k));
    }
  }

  /** StoreTree at a leaf: its marker bit and symbol, and the code for that symbol. */
  method StoreLeaf(symbol: nat, symbols: array<SymbolInfo>, stream: OutBitstream, code: nat, bits: nat, ghost prefix: seq<bool>)
    requires symbol < NumSymbols
    requires symbols.Length == NumSymbols && forall k :: 0 <= k < NumSymbols ==> symbols[k].symbol == k
    requires stream.Valid() && stream.Pos() + |Serialize(Leaf(symbol))| <= 8 * stream.buf.Length
    requires code == Value(prefix) && bits == |prefix|
    modifies symbols, stream, stream.buf
    ensures stream.Valid() && stream.Pos() == old(stream.Pos()) + |Serialize(Leaf(symbol))|
    ensures stream.Written() == old(stream.Written()) + Serialize(Leaf(symbol))
    ensures SameFrom(old(stream.buf[..]), stream.buf[..], stream.Pos())
    ensures CodesStored(old(symbols[..]), symbols[..], Leaf(symbol), prefix)
  {
    ghost var b0 := stream.buf[..];
    stream.WriteBits(1, 1);
    ghost var b1, p1 := stream.buf[..], stream.Pos();
    stream.WriteBits(symbol, SymbolSize);
    SameFromTrans(b0, b1, stream.buf[..], p1, stream.Pos());
    assert LowBits(1, 1) == [true];
    var idx := 0;
    while idx < NumSymbols && symbols[idx].symbol != symbol
      invariant idx <= symbol
    {
      idx := idx + 1;
    }
    assert prefix + Path(Leaf(symbol), idx) == prefix;
    symbols[idx] := symbols[idx].(code := code, bits := bits);
  }

  /**
   * Writes the tree rooted at node (preorder, Serialize's format) and gives
   * each of its leaf symbols the code prefix + its path.
   */
  method StoreTree(nodes: array<EncodeNode>, n: nat, ghost ts: seq<Tree>, node: nat, symbols: array<SymbolInfo>,
                   stream: OutBitstream, code: nat, bits: nat, ghost prefix: seq<bool>)
    requires n <= nodes.Length && Forest(nodes[..n], ts) && node < n
    requires SymbolsBelow(ts[node], NumSymbols) && DistinctLeaves(ts[node])
    requires symbols.Length == NumSymbols && forall k :: 0 <= k < NumSymbols ==> symbols[k].symbol == k
    requires stream.Valid() && stream.Pos() + |Serialize(ts[node])| <= 8 * stream.buf.Length
    requires code == Value(prefix) && bits == |prefix|
    modifies symbols, stream, stream.buf
    ensures stream.Valid() && stream.Pos() == old(stream.Pos()) + |Serialize(ts[node])|
    ensures stream.Written() == old(stream.Written()) + Serialize(ts[node])
    ensures SameFrom(old(stream.buf[..]), stream.buf[..], stream.Pos())
    ensures CodesStored(old(symbols[..]), symbols[..], ts[node], prefix)
    decreases ts[node], 1
  {
    assert nodes[..n][node] == nodes[node];
    if nodes[node].symbol >= 0 {
      assert nodes[node].symbol in Leaves(ts[node]);
      StoreLeaf(nodes[node].symbol, symbols, stream, code, bits, prefix);
    } else {
      StoreBranch(nodes, n, ts, node, symbols, stream, code, bits, prefix);
    }
  }

  /** StoreTree at a branch: a 0 bit, then child A under code bit 0, then child B under code bit 1. */
  method StoreBranch(nodes: array<EncodeNode>, n: nat, ghost ts: seq<Tree>, node: nat, symbols: array<SymbolInfo>,
                     stream: OutBitstream, code: nat, bits: nat, ghost prefix: seq<bool>)
    requires n <= nodes.Length && Forest(nodes[..n], ts) && node < n && nodes[node].symbol < 0
    requires SymbolsBelow(ts[node], NumSymbols) && DistinctLeaves(ts[node])
    requires symbols.Length == NumSymbols && forall k :: 0 <= k < NumSymbols ==> symbols[k].symbol == k
    requires stream.Valid() && stream.Pos() + |Serialize(ts[node])| <= 8 * stream.buf.Length
    requires code == Value(prefix) && bits == |prefix|
    modifies symbols, stream, stream.buf
    ensures stream.Valid() && stream.Pos() == old(stream.Pos()) + |Serialize(ts[node])|
    ensures stream.Written() == old(stream.Written()) + Serialize(ts[node])
    ensures SameFrom(old(stream.buf[..]), stream.buf[..], stream.Pos())
    ensures CodesStored(old(symbols[..]), symbols[..], ts[node], prefix)
    decreases ts[node], 0
  {
    assert nodes[..n][node] == nodes[node];
    var a, b := nodes[node].childA, nodes[node].childB;
    ghost var t := ts[node];
    assert t == Branch(ts[a], ts[b]);
    SymbolsBelowChildren(t, NumSymbols);
    DistinctChildren(t);
    ghost var b0 := stream.buf[..];
    stream.WriteBits(0, 1);
    assert LowBits(0, 1) == [false];
    ghost var s0, w0, b1, p1 := symbols[..], stream.Written(), stream.buf[..], stream.Pos();
    ghost var arena := nodes[..n];
    assert s0 == old(symbols[..]);
    ValueAppendBit(prefix, false);
    StoreTree(nodes, n, ts, a, symbols, stream, code, bits + 1, prefix + [false]);
    ghost var s1, w1, b2, p2 := symbols[..], stream.Written(), stream.buf[..], stream.Pos();
    SameFromTrans(b0, b1, b2, p1, p2);
    assert nodes[..n] == arena;
    assert code + Pow2(bits) == Value(prefix + [true]) by {
      ValueAppendBit(prefix, true);
    }
    assert stream.Pos() + |Serialize(ts[b])| <= 8 * stream.buf.Length;
    assert forall k :: 0 <= k < NumSymbols ==> symbols[k].symbol == k by {
      StoredKeepsSymbols(s0, s1, ts[a], prefix + [false]);
    }
    assert Forest(nodes[..n], ts);
    StoreTree(nodes, n, ts, b, symbols, stream, code + Pow2(bits), bits + 1, prefix + [true]);
    SameFromTrans(b0, b2, stream.buf[..], p2, stream.Pos());
    assert Serialize(t) == [false] + Serialize(ts[a]) + Serialize(ts[b]);
    ConcatThree(old(stream.Written()), w0, w1, stream.Written(), [false], Serialize(ts[a]), Serialize(ts[b]));
    CodesOfBranch(s0, s1, symbols[..], t, prefix);
  }

  lemma {:induction false} ConcatThree<T>(o: seq<T>, w0: seq<T>, w1: seq<T>, w2: seq<T>, x: seq<T>, y: seq<T>, z: seq<T>)
    requires w0 == o + x && w1 == w0 + y && w2 == w1 + z
    ensures w2 == o + (x + y + z) && |w2| == |o| + |x| + |y| + |z|
  {
    AppendAssoc(o, x, y);
    AppendAssoc(o, x + y, z);
  }

  // ---------------------------------------------------------------------------
  // MakeTree.

  /** The largest tree description in bytes: 11 bits per leaf, rounded up. */
  const MaxTreeDataSize: nat := ((2 + SymbolSize) * NumSymbols + 7) / 8

  /** t has one leaf for each symbol the table counts, and no other leaf. */
  ghost predicate TreeFor(table: seq<SymbolInfo>, t: Tree)
  {
    forall s: nat :: Leaves(t)[s] == if s < |table| && table[s].count > 0 then 1 else 0
  }

  /** after is before with each counted symbol given its code in t. */
  ghost predicate CodesOf(before: seq<SymbolInfo>, after: seq<SymbolInfo>, t: Tree)
    requires TreeFor(before, t)
  {
    && |before| == |after|
    && forall k :: 0 <= k < |before| ==>
         after[k] == if before[k].count > 0
                     then before[k].(code := Value(Code(t, k)), bits := |Code(t, k)|)
                     else before[k]
  }

  /** A tree whose leaves are the used symbols of the table has each at one leaf, and its description fits. */
  lemma {:induction false} TreeOfTable(table: seq<SymbolInfo>, t: Tree)
    requires |table| == NumSymbols && Leaves(t) == UsedLeaves(table, NumSymbols)
    ensures TreeFor(table, t) && SymbolsBelow(t, NumSymbols) && DistinctLeaves(t)
    ensures |Serialize(t)| <= 8 * MaxTreeDataSize
    ensures t.Leaf? <==> |Leaves(t)| == 1
  {
    forall s: nat ensures Leaves(t)[s] == if s < NumSymbols && table[s].count > 0 then 1 else 0 {
      UsedLeavesCount(table, NumSymbols, s);
    }
    SizeOfTree(t);
    if t.Branch? {
      LeavesNonEmpty(t.a);
      LeavesNonEmpty(t.b);
    }
  }

  lemma {:induction false} TreeForSize(table: seq<SymbolInfo>, t: Tree)
    requires |table| == NumSymbols && TreeFor(table, t)
    ensures |Leaves(t)| <= NumSymbols
  {
    forall s: nat ensures Leaves(t)[s] == UsedLeaves(table, NumSymbols)[s] {
      UsedLeavesCount(table, NumSymbols, s);
    }
    assert Leaves(t) == UsedLeaves(table, NumSymbols);
  }

  /** BuildTree joins no root exactly when the tree is a single leaf. */
  lemma {:induction false} RootShape(root: int, used: multiset<nat>, t: Tree)
    requires (root == -1 <==> |used| <= 1) && root >= -1 && |used| >= 1
    requires Leaves(t) == used && (t.Leaf? <==> |Leaves(t)| == 1)
    ensures t.Leaf? <==> root < 0
  {
  }

  lemma {:induction false} StoredCodes(before: seq<SymbolInfo>, after: seq<SymbolInfo>, t: Tree, prefix: seq<bool>)
    requires CodesStored(before, after, t, prefix)
    requires if t.Leaf? then prefix == [false] else prefix == []
    requires TreeFor(before, t)
    ensures CodesOf(before, after, t)
  {
    forall k | 0 <= k < NumSymbols && k in Leaves(t)
      ensures prefix + Path(t, k) == Code(t, k)
    {
      if t.Leaf? {
        assert Path(t, k) == [];
      } else {
        assert prefix + Path(t, k) == Path(t, k);
      }
    }
  }

  /**
   * Builds the Huffman tree for the counts in sym, writes its description to
   * the stream and stores each used symbol's code in sym. With one symbol
   * used the tree is a single leaf and the symbol gets the one-bit code 0.
   */
  method MakeTree(sym: array<SymbolInfo>, stream: OutBitstream) returns (ghost t: Tree)
    requires sym.Length == NumSymbols && forall k :: 0 <= k < NumSymbols ==> sym[k].symbol == k
    requires exists k :: 0 <= k < NumSymbols && sym[k].count > 0
    requires stream.Valid() && stream.Pos() + 8 * MaxTreeDataSize <= 8 * stream.buf.Length
    modifies sym, stream, stream.buf
    ensures TreeFor(old(sym[..]), t)
    ensures stream.Valid() && stream.Pos() == old(stream.Pos()) + |Serialize(t)|
    ensures stream.Written() == old(stream.Written()) + Serialize(t)
    ensures SameFrom(old(stream.buf[..]), stream.buf[..], stream.Pos())
    ensures CodesOf(old(sym[..]), sym[..], t)
  {
    ghost var before := sym[..];
    ghost var w0, p0 := stream.Written(), stream.Pos();
    var nodes := new EncodeNode[MaxTreeNodes];
    var root, next, ts := BuildTree(sym, nodes);
    assert sym[..] == before;
    ghost var used := UsedLeaves(before, NumSymbols);
    var k :| 0 <= k < NumSymbols && sym[k].count > 0;
    UsedLeavesCount(before, NumSymbols, k);
    ghost var r := if root >= 0 then root else 0;
    t := ts[r];
    TreeOfTable(before, t);
    // Without a joined root the single leaf node 0 is stored with a one-bit code.
    var start, bits := root, 0;
    ghost var prefix: seq<bool> := [];
    if root < 0 {
      start, bits, prefix := 0, 1, [false];
    }
    RootShape(root, used, t);
    assert Value(prefix) == 0 && bits == |prefix| && ts[start] == t;
    StoreTree(nodes, next, ts, start, sym, stream, 0, bits, prefix);
    assert stream.Written() == w0 + Serialize(t) && stream.Pos() == p0 + |Serialize(t)|;
    StoredCodes(before, sym[..], t, prefix);
  }

  // ---------------------------------------------------------------------------
  // The encoded block.

  /** t has one leaf for each symbol the tokenisation of data uses, and no other leaf. */
  ghost predicate TreeForData(data: seq<byte>, t: Tree)
  {
    forall s: nat :: Leaves(t)[s] == if s < NumSymbols && Occurrences(Tokenise(data), s) > 0 then 1 else 0
  }

  /** Every token's symbol has a leaf in t. */
  ghost predicate Codable(t: Tree, ts: seq<Token>)
  {
    forall i :: 0 <= i < |ts| ==> Symbol(ts[i]) in Leaves(t)
  }

  /** The bits of one token: its symbol's code, then its count value in ExtraBits bits. */
  function EncodeToken(t: Tree, tok: Token): seq<bool>
    requires Symbol(tok) in Leaves(t)
  {
    Code(t, Symbol(tok)) + LowBits(Extra(tok), ExtraBits(Symbol(tok)))
  }

  function EncodeTokens(t: Tree, ts: seq<Token>): seq<bool>
    requires Codable(t, ts)
  {
    if ts == [] then [] else EncodeToken(t, ts[0]) + EncodeTokens(t, ts[1..])
  }

  lemma {:induction false} TreeForDataCodable(data: seq<byte>, t: Tree)
    requires TreeForData(data, t)
    ensures Codable(t, Tokenise(data))
  {
    var ts := Tokenise(data);
    forall i | 0 <= i < |ts| ensures Symbol(ts[i]) in Leaves(t) {
      EmittedSymbolsCounted(ts, i);
      TokenFits(ts[i]);
    }
  }

  lemma {:induction false} CodableAppend(t: Tree, ts: seq<Token>, tok: Token)
    requires Codable(t, ts) && Symbol(tok) in Leaves(t)
    ensures Codable(t, ts + [tok]) && (ts != [] ==> Codable(t, ts[1..]))
  {
    var r := ts + [tok];
    forall i | 0 <= i < |r| ensures Symbol(r[i]) in Leaves(t) {
      if i < |ts| {
        assert r[i] == ts[i];
      }
    }
    if ts != [] {
      forall i | 0 <= i < |ts| - 1 ensures Symbol(ts[1..][i]) in Leaves(t) {
        assert ts[1..][i] == ts[i + 1];
      }
    }
  }

  lemma {:induction false} EncodeTokensAppend(t: Tree, ts: seq<Token>, tok: Token)
    requires Codable(t, ts) && Symbol(tok) in Leaves(t)
    ensures Codable(t, ts + [tok])
    ensures EncodeTokens(t, ts + [tok]) == EncodeTokens(t, ts) + EncodeToken(t, tok)
  {
    CodableAppend(t, ts, tok);
    var r := ts + [tok];
    if ts == [] {
      assert r[1..] == [];
      assert EncodeTokens(t, r) == EncodeToken(t, tok) + EncodeTokens(t, []);
    } else {
      var rest := ts[1..];
      assert Codable(t, rest) by {
        forall i | 0 <= i < |rest| ensures Symbol(rest[i]) in Leaves(t) {
          assert rest[i] == ts[i + 1];
        }
      }
      assert r[0] == ts[0] && r[1..] == rest + [tok];
      EncodeTokensAppend(t, rest, tok);
      assert EncodeTokens(t, r) == EncodeToken(t, ts[0]) + EncodeTokens(t, rest + [tok]);
      AppendAssoc(EncodeToken(t, ts[0]), EncodeTokens(t, rest), EncodeToken(t, tok));
    }
  }

  /** No code is longer than 260 bits, so no token takes more than 274. */
  lemma {:induction false} EncodeTokenBound(t: Tree, tok: Token)
    requires |Leaves(t)| <= NumSymbols && Symbol(tok) in Leaves(t)
    ensures |EncodeToken(t, tok)| <= NumSymbols - 1 + 14
  {
    if t.Branch? {
      PathBound(t, Symbol(tok));
    }
  }

  /** The tokens of ts take at most 274 bits each. */
  lemma {:induction false} EncodeTokensBound(t: Tree, ts: seq<Token>)
    requires Codable(t, ts) && |Leaves(t)| <= NumSymbols
    ensures |EncodeTokens(t, ts)| <= (NumSymbols - 1 + 14) * |ts|
  {
    if ts != [] {
      var rest := ts[1..];
      assert Codable(t, rest) by {
        forall i | 0 <= i < |rest| ensures Symbol(rest[i]) in Leaves(t) {
          assert rest[i] == ts[i + 1];
        }
      }
      EncodeTokenBound(t, ts[0]);
      EncodeTokensBound(t, rest);
    }
  }

  /** Every symbol with a leaf in t has its code from t in the table. */
  ghost predicate CodeTable(table: seq<SymbolInfo>, t: Tree)
  {
    && |table| == NumSymbols
    && forall s :: 0 <= s < NumSymbols && s in Leaves(t) ==>
         table[s].code == Value(Code(t, s)) && table[s].bits == |Code(t, s)|
  }

  lemma {:induction false} CodesOfTable(before: seq<SymbolInfo>, after: seq<SymbolInfo>, t: Tree)
    requires |before| == NumSymbols && TreeFor(before, t) && CodesOf(before, after, t)
    requires forall k :: 0 <= k < NumSymbols ==> before[k].symbol == k
    ensures CodeTable(after, t) && SortedBySymbol(after)
  {
    forall s | 0 <= s < NumSymbols && s in Leaves(t)
      ensures after[s].code == Value(Code(t, s)) && after[s].bits == |Code(t, s)|
    {
      assert Leaves(t)[s] > 0;
    }
    forall k | 0 <= k < NumSymbols
      ensures after[k].symbol == k
    {
      assert after[k].symbol == before[k].symbol;
    }
  }

  /** The state of Compress's encoding loop: the tokens done cover the bytes before k. */
  ghost predicate Encoding(data: seq<byte>, t: Tree, k: nat, done: seq<Token>)
  {
    && k <= |data| && |done| <= k
    && Tokenise(data) == done + TokeniseFrom(data, k)
    && Codable(t, done)
  }

  lemma {:induction false} EncodingStep(data: seq<byte>, t: Tree, k: nat, done: seq<Token>)
    requires Encoding(data, t, k, done) && k < |data| && |Leaves(t)| <= NumSymbols
    requires Codable(t, Tokenise(data))
    ensures var tok := TokenAt(data, k).0;
      && Encoding(data, t, k + TokenAt(data, k).1, done + [tok])
      && Symbol(tok) in Leaves(t)
      && EncodeTokens(t, done + [tok]) == EncodeTokens(t, done) + EncodeToken(t, tok)
      && |EncodeToken(t, tok)| <= 280
  {
    var tok, rest := TokenAt(data, k).0, TokeniseFrom(data, k + TokenAt(data, k).1);
    TokenSplit(data, k, done);
    EncodeStep(t, Tokenise(data), done, tok, rest);
  }

  /** The state of Compress's encoding loop: the tokens done are written after w0, within 280 bits each. */
  ghost predicate Emitted(data: seq<byte>, t: Tree, k: nat, done: seq<Token>, w0: seq<bool>, p0: nat,
                          written: seq<bool>, pos: nat)
  {
    && Encoding(data, t, k, done)
    && pos <= p0 + 280 * |done|
    && written == w0 + EncodeTokens(t, done)
  }

  /** Before a turn of Compress's encoding loop: the token at k has a code, and its bits fit in the buffer. */
  lemma {:induction false} EmittedRoom(data: seq<byte>, t: Tree, k: nat, done: seq<Token>, w0: seq<bool>, p0: nat,
                                       w: seq<bool>, p: nat, room: nat)
    requires Emitted(data, t, k, done, w0, p0, w, p) && k < |data| && |Leaves(t)| <= NumSymbols
    requires Codable(t, Tokenise(data)) && p0 + 280 * |data| <= room
    ensures Symbol(TokenAt(data, k).0) in Leaves(t) && p + |EncodeToken(t, TokenAt(data, k).0)| <= room
  {
    EncodingStep(data, t, k, done);
    assert |done| + 1 <= |data|;
  }

  /** The loop state after the token at k has been written. */
  lemma {:induction false} EmittedNext(data: seq<byte>, t: Tree, k: nat, step: nat, done: seq<Token>, w0: seq<bool>, p0: nat,
                                       w: seq<bool>, p: nat, w': seq<bool>, p': nat)
    requires Emitted(data, t, k, done, w0, p0, w, p) && k < |data| && |Leaves(t)| <= NumSymbols && step == TokenAt(data, k).1
    requires Codable(t, Tokenise(data)) && Symbol(TokenAt(data, k).0) in Leaves(t)
    requires w' == w + EncodeToken(t, TokenAt(data, k).0) && p' == p + |EncodeToken(t, TokenAt(data, k).0)|
    ensures Emitted(data, t, k + step, done + [TokenAt(data, k).0], w0, p0, w', p')
  {
    var tok := TokenAt(data, k).0;
    EncodingStep(data, t, k, done);
    AppendAssoc(w0, EncodeTokens(t, done), EncodeToken(t, tok));
  }

  /** Compress's encoding loop: each token of the block, written with the codes of the table. */
  method EncodeBlock(data: seq<byte>, symbols: array<SymbolInfo>, stream: OutBitstream, ghost t: Tree)
    requires symbols.Length == NumSymbols && CodeTable(symbols[..], t)
    requires Codable(t, Tokenise(data)) && |Leaves(t)| <= NumSymbols
    requires stream.Valid() && stream.Pos() + 280 * |data| <= 8 * stream.buf.Length
    modifies stream, stream.buf
    ensures stream.Valid() && stream.Written() == old(stream.Written()) + EncodeTokens(t, Tokenise(data))
    ensures SameFrom(old(stream.buf[..]), stream.buf[..], stream.Pos())
  {
    ghost var w0, p0, b0 := stream.Written(), stream.Pos(), stream.buf[..];
    var k := 0;
    ghost var done: seq<Token> := [];
    assert w0 + [] == w0;
    while k < |data|
      invariant stream.Valid() && Emitted(data, t, k, done, w0, p0, stream.Written(), stream.Pos())
      invariant SameFrom(b0, stream.buf[..], stream.Pos())
      decreases |data| - k
    {
      ghost var next := done + [TokenAt(data, k).0];
      ghost var w1, b1, p1 := stream.Written(), stream.buf[..], stream.Pos();
      assert Symbol(TokenAt(data, k).0) in Leaves(t) && p1 + |EncodeToken(t, TokenAt(data, k).0)| <= 8 * stream.buf.Length by {
        EmittedRoom(data, t, k, done, w0, p0, w1, p1, 8 * stream.buf.Length);
      }
      var step := WriteToken(data, k, symbols, stream, t);
      EmittedNext(data, t, k, step, done, w0, p0, w1, p1, stream.Written(), stream.Pos());
      SameFromTrans(b0, b1, stream.buf[..], p1, stream.Pos());
      k, done := k + step, next;
    }
    EmittedAll(data, t, k, done, w0, p0, stream.Written(), stream.Pos());
  }

  lemma {:induction false} EmittedAll(data: seq<byte>, t: Tree, k: nat, done: seq<Token>, w0: seq<bool>, p0: nat,
                                      written: seq<bool>, pos: nat)
    requires Emitted(data, t, k, done, w0, p0, written, pos) && k >= |data|
    ensures written == w0 + EncodeTokens(t, Tokenise(data))
  {
    EncodingDone(data, t, k, done);
  }

  lemma {:induction false} EncodingDone(data: seq<byte>, t: Tree, k: nat, done: seq<Token>)
    requires Encoding(data, t, k, done) && k >= |data|
    ensures done == Tokenise(data)
  {
    assert TokeniseFrom(data, k) == [];
  }

  /** The token after done in a codable sequence has a leaf, and its bits follow those of done. */
  lemma {:induction false} EncodeStep(t: Tree, tokens: seq<Token>, done: seq<Token>, tok: Token, rest: seq<Token>)
    requires tokens == done + ([tok] + rest) && Codable(t, tokens) && |Leaves(t)| <= NumSymbols
    ensures Symbol(tok) in Leaves(t) && Codable(t, done) && Codable(t, done + [tok])
    ensures EncodeTokens(t, done + [tok]) == EncodeTokens(t, done) + EncodeToken(t, tok)
    ensures |EncodeToken(t, tok)| <= 280
  {
    assert tokens[|done|] == tok;
    forall i | 0 <= i < |done| ensures Symbol(done[i]) in Leaves(t) {
      assert done[i] == tokens[i];
    }
    EncodeTokenBound(t, tok);
    EncodeTokensAppend(t, done, tok);
  }

  /** One step of Compress's encoding loop: the code of the token at k, then its count bits. */
  method WriteToken(data: seq<byte>, k: nat, symbols: array<SymbolInfo>, stream: OutBitstream, ghost t: Tree)
    returns (step: nat)
    requires k < |data| && symbols.Length == NumSymbols && CodeTable(symbols[..], t)
    requires Symbol(TokenAt(data, k).0) in Leaves(t)
    requires stream.Valid() && stream.Pos() + |EncodeToken(t, TokenAt(data, k).0)| <= 8 * stream.buf.Length
    modifies stream, stream.buf
    ensures stream.Valid() && stream.Pos() == old(stream.Pos()) + |EncodeToken(t, TokenAt(data, k).0)|
    ensures stream.Written() == old(stream.Written()) + EncodeToken(t, TokenAt(data, k).0)
    ensures SameFrom(old(stream.buf[..]), stream.buf[..], stream.Pos())
    ensures step == TokenAt(data, k).1
  {
    ghost var tok := TokenAt(data, k).0;
    ZeroCountSymbolIsSymbol(data, k);
    TokenFits(tok);
    if data[k] == 0 {
      step := WriteRun(data, k, symbols, stream, t);
    } else {
      WriteCode(symbols, stream, t, data[k]);
      assert LowBits(Extra(tok), ExtraBits(Symbol(tok))) == [];
      step := 1;
    }
  }

  /** The token at k is a run of zero bytes: its symbol's code, then the run length less the symbol's base. */
  method WriteRun(data: seq<byte>, k: nat, symbols: array<SymbolInfo>, stream: OutBitstream, ghost t: Tree)
    returns (step: nat)
    requires k < |data| && data[k] == 0 && symbols.Length == NumSymbols && CodeTable(symbols[..], t)
    requires Symbol(TokenAt(data, k).0) in Leaves(t)
    requires stream.Valid() && stream.Pos() + |EncodeToken(t, TokenAt(data, k).0)| <= 8 * stream.buf.Length
    modifies stream, stream.buf
    ensures stream.Valid() && stream.Pos() == old(stream.Pos()) + |EncodeToken(t, TokenAt(data, k).0)|
    ensures stream.Written() == old(stream.Written()) + EncodeToken(t, TokenAt(data, k).0)
    ensures SameFrom(old(stream.buf[..]), stream.buf[..], stream.Pos())
    ensures step == TokenAt(data, k).1
  {
    ghost var tok := TokenAt(data, k).0;
    RunEncoding(data, k, t);
    var zeros := ScanZeros(data, k);
    assert zeros == TokenAt(data, k).1;
    var sym := ZeroCountSymbol(zeros);
    ghost var w0, code, extra := stream.Written(), Code(t, sym), LowBits(Extra(tok), ExtraBits(sym));
    assert EncodeToken(t, tok) == code + extra;
    ghost var b0 := stream.buf[..];
    WriteCode(symbols, stream, t, sym);
    if ExtraBits(sym) > 0 {
      ghost var b1, p1 := stream.buf[..], stream.Pos();
      stream.WriteBits(zeros - RunBase(sym), ExtraBits(sym));
      SameFromTrans(b0, b1, stream.buf[..], p1, stream.Pos());
    } else {
      assert (w0 + code) + extra == w0 + code;
    }
    assert stream.Written() == (w0 + code) + extra;
    AppendAssoc(w0, code, extra);
    step := zeros;
  }

  /** The bits of a run token: its symbol's code, then the run length less the symbol's base. */
  lemma {:induction false} RunEncoding(data: seq<byte>, k: nat, t: Tree)
    requires k < |data| && data[k] == 0 && Symbol(TokenAt(data, k).0) in Leaves(t)
    ensures var tok, zeros := TokenAt(data, k).0, TokenAt(data, k).1;
      var sym := ZeroCountSymbol(zeros);
      && sym == Symbol(tok) && sym < NumSymbols
      && EncodeToken(t, tok) == Code(t, sym) + LowBits(Extra(tok), ExtraBits(sym))
      && (ExtraBits(sym) == 0 ==> LowBits(Extra(tok), ExtraBits(sym)) == [])
      && (ExtraBits(sym) > 0 ==> zeros >= RunBase(sym) && zeros - RunBase(sym) == Extra(tok))
  {
    ZeroCountSymbolIsSymbol(data, k);
    TokenFits(TokenAt(data, k).0);
  }

  /** Writes the code the table holds for symbol s. */
  method WriteCode(symbols: array<SymbolInfo>, stream: OutBitstream, ghost t: Tree, s: nat)
    requires symbols.Length == NumSymbols && CodeTable(symbols[..], t) && s < NumSymbols && s in Leaves(t)
    requires stream.Valid() && stream.Pos() + |Code(t, s)| <= 8 * stream.buf.Length
    modifies stream, stream.buf
    ensures stream.Valid() && stream.Pos() == old(stream.Pos()) + |Code(t, s)|
    ensures stream.Written() == old(stream.Written()) + Code(t, s)
    ensures SameFrom(old(stream.buf[..]), stream.buf[..], stream.Pos())
  {
    assert symbols[s].code == Value(Code(t, s)) && symbols[s].bits == |Code(t, s)| by {
      assert symbols[s] == symbols[..][s];
    }
    LowBitsOfValue(Code(t, s));
    stream.WriteBits(symbols[s].code, symbols[s].bits);
  }
}
