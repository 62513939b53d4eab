/** Huffman tree construction by repeated merging of the two lightest nodes. */
module HuffmanTree {
  import opened HuffmanTypes
  import opened Frequency

  /**
   * A HuffmanNode. A leaf carries a symbol and its frequency; an internal node has no
   * symbol (its char is null), a frequency and two children. Children are attached once,
   * right after the node is created, and never changed, so a node is a value.
   */
  datatype Tree = Leaf(sym: Sym, freq: nat) | Node(freq: nat, left: Tree, right: Tree)

  /** Every internal node weighs as much as its two children together. */
  predicate WellFormed(t: Tree)
  {
    match t
    case Leaf(_, _) => true
    case Node(f, l, r) => f == l.freq + r.freq && WellFormed(l) && WellFormed(r)
  }

  /** The symbols at the leaves, left to right. */
  function LeafSyms(t: Tree): seq<Sym>
  {
    match t
    case Leaf(s, _) => [s]
    case Node(_, l, r) => LeafSyms(l) + LeafSyms(r)
  }

  /** Every leaf carries the frequency that the table gives its symbol. */
  predicate LeavesAgree(t: Tree, freq: map<Sym, nat>)
  {
    match t
    case Leaf(s, f) => s in freq && freq[s] == f
    case Node(_, l, r) => LeavesAgree(l, freq) && LeavesAgree(r, freq)
  }

  // ---------------------------------------------------------------------------
  // Node arrays (forests)

  /** Sum of the frequencies of the nodes. */
  function TotalWeight(nodes: seq<Tree>): nat
  {
    if nodes == [] then 0 else nodes[0].freq + TotalWeight(nodes[1..])
  }

  /** The leaf symbols of all nodes, node after node. */
  function ForestSyms(nodes: seq<Tree>): seq<Sym>
  {
    if nodes == [] then [] else LeafSyms(nodes[0]) + ForestSyms(nodes[1..])
  }

  /** Every node of the array is well-formed and agrees with the table. */
  predicate ForestOk(nodes: seq<Tree>, freq: map<Sym, nat>)
  {
    forall t :: t in nodes ==> WellFormed(t) && LeavesAgree(t, freq)
  }

  /** Non-decreasing frequency order. */
  predicate Sorted(nodes: seq<Tree>)
  {
    forall i, j :: 0 <= i < j < |nodes| ==> nodes[i].freq <= nodes[j].freq
  }

  lemma {:induction false} TotalWeightAppend(a: seq<Tree>, b: seq<Tree>)
    ensures TotalWeight(a + b) == TotalWeight(a) + TotalWeight(b)
  {
    if a != [] {
      assert (a + b)[0] == a[0];
      assert (a + b)[1..] == a[1..] + b;
      TotalWeightAppend(a[1..], b);
    } else {
      assert a + b == b;
    }
  }

  lemma {:induction false} ForestSymsAppend(a: seq<Tree>, b: seq<Tree>)
    ensures ForestSyms(a + b) == ForestSyms(a) + ForestSyms(b)
  {
    if a != [] {
      assert (a + b)[0] == a[0];
      assert (a + b)[1..] == a[1..] + b;
      ForestSymsAppend(a[1..], b);
    } else {
      assert a + b == b;
    }
  }

  // ---------------------------------------------------------------------------
  // The stable sort by frequency

  /**
   * Places `t` into `nodes` after every node whose frequency is at most `t.freq`:
   * a node never overtakes an earlier node of equal frequency.
   */
  function Insert(nodes: seq<Tree>, t: Tree): (r: seq<Tree>)
    ensures |r| == |nodes| + 1
  {
    if nodes == [] || t.freq < nodes[0].freq then [t] + nodes
    else [nodes[0]] + Insert(nodes[1..], t)
  }

  lemma {:induction false} InsertPermutes(nodes: seq<Tree>, t: Tree)
    ensures multiset(Insert(nodes, t)) == multiset(nodes) + multiset{t}
  {
    if nodes != [] && t.freq >= nodes[0].freq {
      InsertPermutes(nodes[1..], t);
      assert nodes == [nodes[0]] + nodes[1..];
    }
  }

  /** Stable insertion sort by frequency, the model of `nodes.sort((a, b) => a.freq - b.freq)`. */
  function SortByFreq(nodes: seq<Tree>): (r: seq<Tree>)
    ensures |r| == |nodes|
  {
    if nodes == [] then []
    else Insert(SortByFreq(nodes[..|nodes| - 1]), nodes[|nodes| - 1])
  }

  /** The sort returns a permutation of the array. */
  lemma {:induction false} SortByFreqPermutes(nodes: seq<Tree>)
    ensures multiset(SortByFreq(nodes)) == multiset(nodes)
  {
    if nodes != [] {
      SortByFreqPermutes(nodes[..|nodes| - 1]);
      InsertPermutes(SortByFreq(nodes[..|nodes| - 1]), nodes[|nodes| - 1]);
      assert nodes == nodes[..|nodes| - 1] + [nodes[|nodes| - 1]];
    }
  }

  /** The subsequence of the nodes whose frequency is `f`. */
  function WithFreq(nodes: seq<Tree>, f: nat): seq<Tree>
  {
    if nodes == [] then []
    else (if nodes[0].freq == f then [nodes[0]] else []) + WithFreq(nodes[1..], f)
  }

  lemma {:induction false} WithFreqAppend(a: seq<Tree>, b: seq<Tree>, f: nat)
    ensures WithFreq(a + b, f) == WithFreq(a, f) + WithFreq(b, f)
  {
    if a != [] {
      assert (a + b)[0] == a[0];
      assert (a + b)[1..] == a[1..] + b;
      WithFreqAppend(a[1..], b, f);
    } else {
      assert a + b == b;
    }
  }

  lemma {:induction false} WithFreqNone(nodes: seq<Tree>, f: nat)
    requires forall i :: 0 <= i < |nodes| ==> nodes[i].freq != f
    ensures WithFreq(nodes, f) == []
  {
    if nodes != [] {
      WithFreqNone(nodes[1..], f);
    }
  }

  lemma {:induction false} InsertSorted(nodes: seq<Tree>, t: Tree)
    requires Sorted(nodes)
    ensures Sorted(Insert(nodes, t))
  {
    if nodes != [] && t.freq >= nodes[0].freq {
      InsertSorted(nodes[1..], t);
      var r := Insert(nodes, t);
      assert r == [nodes[0]] + Insert(nodes[1..], t);
      InsertPermutes(nodes[1..], t);
      forall k | 1 <= k < |r|
        ensures nodes[0].freq <= r[k].freq
      {
        assert r[k] in multiset(Insert(nodes[1..], t));
        assert r[k] in multiset(nodes[1..]) || r[k] == t;
      }
    }
  }

  /** After every sort the array is in non-decreasing frequency order. */
  lemma {:induction false} SortByFreqSorted(nodes: seq<Tree>)
    ensures Sorted(SortByFreq(nodes))
  {
    if nodes != [] {
      SortByFreqSorted(nodes[..|nodes| - 1]);
      InsertSorted(SortByFreq(nodes[..|nodes| - 1]), nodes[|nodes| - 1]);
    }
  }

  lemma {:induction false} InsertStable(nodes: seq<Tree>, t: Tree, f: nat)
    requires Sorted(nodes)
    ensures WithFreq(Insert(nodes, t), f) == WithFreq(nodes, f) + (if t.freq == f then [t] else [])
  {
    if nodes == [] || t.freq < nodes[0].freq {
      InsertFrontStable(nodes, t, f);
    } else {
      assert Sorted(nodes[1..]);
      InsertStable(nodes[1..], t, f);
      assert Insert(nodes, t) == [nodes[0]] + Insert(nodes[1..], t);
      WithFreqAppend([nodes[0]], Insert(nodes[1..], t), f);
      WithFreqAppend([nodes[0]], nodes[1..], f);
      assert nodes == [nodes[0]] + nodes[1..];
    }
  }

  /** InsertStable when `t` goes in front: every node of `nodes` is heavier than `t`. */
  lemma InsertFrontStable(nodes: seq<Tree>, t: Tree, f: nat)
    requires Sorted(nodes)
    requires nodes == [] || t.freq < nodes[0].freq
    ensures WithFreq(Insert(nodes, t), f) == WithFreq(nodes, f) + (if t.freq == f then [t] else [])
  {
    assert Insert(nodes, t) == [t] + nodes;
    WithFreqAppend([t], nodes, f);
    assert WithFreq([t], f) == (if t.freq == f then [t] else []) + WithFreq([], f);
    if t.freq == f {
      WithFreqNone(nodes, f);
    }
  }

  /** The sort is stable: the nodes of any one frequency keep their relative order. */
  lemma {:induction false} SortByFreqStable(nodes: seq<Tree>, f: nat)
    ensures WithFreq(SortByFreq(nodes), f) == WithFreq(nodes, f)
  {
    if nodes != [] {
      var init, last := nodes[..|nodes| - 1], nodes[|nodes| - 1];
      SortByFreqStable(init, f);
      SortByFreqSorted(init);
      InsertStable(SortByFreq(init), last, f);
      assert nodes == init + [last];
      WithFreqAppend(init, [last], f);
      assert WithFreq([last], f) == (if last.freq == f then [last] else []) + WithFreq([], f);
    }
  }

  /** The number of leading nodes whose frequency is at most `f`. */
  function InsertPoint(nodes: seq<Tree>, f: nat): (k: nat)
    ensures k <= |nodes|
  {
    if nodes == [] || f < nodes[0].freq then 0 else 1 + InsertPoint(nodes[1..], f)
  }

  lemma {:induction false} InsertAt(nodes: seq<Tree>, t: Tree)
    requires Sorted(nodes)
    ensures var k := InsertPoint(nodes, t.freq);
      Insert(nodes, t) == nodes[..k] + [t] + nodes[k..] &&
      (forall i :: 0 <= i < k ==> nodes[i].freq <= t.freq) &&
      (forall i :: k <= i < |nodes| ==> t.freq < nodes[i].freq)
  {
    if nodes != [] && t.freq >= nodes[0].freq {
      InsertAt(nodes[1..], t);
      var k := InsertPoint(nodes, t.freq);
      assert nodes[..k] == [nodes[0]] + nodes[1..][..k - 1];
      assert nodes[k..] == nodes[1..][k - 1..];
    }
  }

  lemma {:induction false} SortByFreqOfSorted(nodes: seq<Tree>)
    requires Sorted(nodes)
    ensures SortByFreq(nodes) == nodes
  {
    if nodes != [] {
      var init, last := nodes[..|nodes| - 1], nodes[|nodes| - 1];
      SortByFreqOfSorted(init);
      InsertAt(init, last);
      assert forall i :: 0 <= i < |init| ==> init[i] == nodes[i];
      assert InsertPoint(init, last.freq) == |init|;
      assert init[..|init|] == init;
      assert nodes == init + [last];
    }
  }

  /**
   * Pushing a node onto a sorted array and re-sorting puts it after every node of
   * frequency at most its own, and before every heavier node.
   */
  lemma PushThenSort(nodes: seq<Tree>, t: Tree)
    requires Sorted(nodes)
    ensures var k := InsertPoint(nodes, t.freq);
      SortByFreq(nodes + [t]) == nodes[..k] + [t] + nodes[k..] &&
      (forall i :: 0 <= i < k ==> nodes[i].freq <= t.freq) &&
      (forall i :: k <= i < |nodes| ==> t.freq < nodes[i].freq)
  {
    assert (nodes + [t])[..|nodes|] == nodes;
    SortByFreqOfSorted(nodes);
    InsertAt(nodes, t);
  }

  lemma {:induction false} InsertWeight(nodes: seq<Tree>, t: Tree)
    ensures TotalWeight(Insert(nodes, t)) == TotalWeight(nodes) + t.freq
    ensures multiset(ForestSyms(Insert(nodes, t))) == multiset(ForestSyms(nodes)) + multiset(LeafSyms(t))
  {
    if nodes != [] && t.freq >= nodes[0].freq {
      InsertWeight(nodes[1..], t);
      assert Insert(nodes, t)[1..] == Insert(nodes[1..], t);
    }
  }

  lemma {:induction false} SortByFreqWeight(nodes: seq<Tree>)
    ensures TotalWeight(SortByFreq(nodes)) == TotalWeight(nodes)
    ensures multiset(ForestSyms(SortByFreq(nodes))) == multiset(ForestSyms(nodes))
  {
    if nodes != [] {
      var init, last := nodes[..|nodes| - 1], nodes[|nodes| - 1];
      SortByFreqWeight(init);
      assert nodes == init + [last];
      assert [last][1..] == [];
      assert TotalWeight(SortByFreq(nodes)) == TotalWeight(nodes) by {
        InsertWeight(SortByFreq(init), last);
        TotalWeightAppend(init, [last]);
      }
      assert multiset(ForestSyms(SortByFreq(nodes))) == multiset(ForestSyms(nodes)) by {
        InsertWeight(SortByFreq(init), last);
        ForestSymsAppend(init, [last]);
        assert ForestSyms([last]) == LeafSyms(last) + [];
      }
    }
  }

  // ---------------------------------------------------------------------------
  // The merge loop

  /** The internal node created from the two shifted nodes. */
  function Merge(left: Tree, right: Tree): Tree
  {
    Node(left.freq + right.freq, left, right)
  }

  /** One iteration of the loop: shift two nodes, push their merge, re-sort. */
  function MergeStep(nodes: seq<Tree>): (r: seq<Tree>)
    requires |nodes| >= 2
    ensures |r| == |nodes| - 1
  {
    SortByFreq(nodes[2..] + [Merge(nodes[0], nodes[1])])
  }

  /** Runs the loop until one node is left, and returns that node. */
  function MergeAll(nodes: seq<Tree>): Tree
    requires |nodes| >= 1
    decreases |nodes|
  {
    if |nodes| == 1 then nodes[0] else MergeAll(MergeStep(nodes))
  }

  /**
   * A step leaves the array sorted again, so every step starts from a sorted array whose
   * two front nodes, the ones shifted, are the two lightest.
   */
  lemma MergeStepSorted(nodes: seq<Tree>)
    requires |nodes| >= 2 && Sorted(nodes)
    ensures Sorted(MergeStep(nodes))
  {
    SortByFreqSorted(nodes[2..] + [Merge(nodes[0], nodes[1])]);
  }

  lemma SortByFreqForestOk(nodes: seq<Tree>, freq: map<Sym, nat>)
    requires ForestOk(nodes, freq)
    ensures ForestOk(SortByFreq(nodes), freq)
  {
    SortByFreqPermutes(nodes);
    forall t | t in SortByFreq(nodes)
      ensures t in nodes
    {
      assert t in multiset(SortByFreq(nodes));
    }
  }

  /** A merge step keeps the forest well-formed, its total weight and its leaves. */
  lemma MergeStepPreserves(nodes: seq<Tree>, freq: map<Sym, nat>)
    requires |nodes| >= 2 && ForestOk(nodes, freq)
    ensures ForestOk(MergeStep(nodes), freq)
    ensures TotalWeight(MergeStep(nodes)) == TotalWeight(nodes)
    ensures multiset(ForestSyms(MergeStep(nodes))) == multiset(ForestSyms(nodes))
  {
    var merged := Merge(nodes[0], nodes[1]);
    var pushed := nodes[2..] + [merged];
    PushedForestOk(nodes, freq);
    SortByFreqForestOk(pushed, freq);
    SortByFreqWeight(pushed);
    PushedWeight(nodes);
  }

  lemma PushedForestOk(nodes: seq<Tree>, freq: map<Sym, nat>)
    requires |nodes| >= 2 && ForestOk(nodes, freq)
    ensures ForestOk(nodes[2..] + [Merge(nodes[0], nodes[1])], freq)
  {
    assert nodes[0] in nodes && nodes[1] in nodes;
    var merged := Merge(nodes[0], nodes[1]);
    assert WellFormed(merged) && LeavesAgree(merged, freq);
    forall t | t in nodes[2..] + [merged]
      ensures WellFormed(t) && LeavesAgree(t, freq)
    {
      if t != merged {
        assert t in nodes[2..];
        assert t in nodes;
      }
    }
  }

  lemma PushedWeight(nodes: seq<Tree>)
    requires |nodes| >= 2
    ensures var pushed := nodes[2..] + [Merge(nodes[0], nodes[1])];
      TotalWeight(pushed) == TotalWeight(nodes) &&
      multiset(ForestSyms(pushed)) == multiset(ForestSyms(nodes))
  {
    var merged := Merge(nodes[0], nodes[1]);
    TotalWeightAppend(nodes[2..], [merged]);
    ForestSymsAppend(nodes[2..], [merged]);
    assert nodes[1..][1..] == nodes[2..];
    assert TotalWeight([merged]) == merged.freq;
    assert ForestSyms([merged]) == LeafSyms(merged);
  }

  /** The loop ends with a well-formed root that carries all the weight and all the leaves. */
  lemma {:induction false} MergeAllPreserves(nodes: seq<Tree>, freq: map<Sym, nat>)
    requires |nodes| >= 1 && ForestOk(nodes, freq)
    ensures WellFormed(MergeAll(nodes)) && LeavesAgree(MergeAll(nodes), freq)
    ensures MergeAll(nodes).freq == TotalWeight(nodes)
    ensures multiset(LeafSyms(MergeAll(nodes))) == multiset(ForestSyms(nodes))
    decreases |nodes|
  {
    if |nodes| == 1 {
      assert nodes[0] in nodes;
      assert nodes[1..] == [];
    } else {
      MergeStepPreserves(nodes, freq);
      MergeAllPreserves(MergeStep(nodes), freq);
    }
  }

  /** One leaf per entry of the table, in the order `order` visits the keys. */
  function LeavesOf(freq: map<Sym, nat>, order: seq<Sym>): (r: seq<Tree>)
    requires forall s :: s in order ==> s in freq
    ensures |r| == |order|
  {
    if order == [] then []
    else LeavesOf(freq, order[..|order| - 1]) + [Leaf(order[|order| - 1], freq[order[|order| - 1]])]
  }

  /** The tree the builder returns; None stands for the `undefined` of an empty table. */
  function BuildTree(freq: map<Sym, nat>, order: seq<Sym>): Option<Tree>
    requires forall s :: s in order ==> s in freq
  {
    if order == [] then None else Some(MergeAll(SortByFreq(LeavesOf(freq, order))))
  }

  lemma {:induction false} LeavesOfFacts(freq: map<Sym, nat>, order: seq<Sym>)
    requires forall s :: s in order ==> s in freq
    ensures ForestOk(LeavesOf(freq, order), freq)
    ensures ForestSyms(LeavesOf(freq, order)) == order
    ensures TotalWeight(LeavesOf(freq, order)) == SumFreq(order, freq)
  {
    if order != [] {
      var init, last := order[..|order| - 1], order[|order| - 1];
      var leaf := Leaf(last, freq[last]);
      LeavesOfFacts(freq, init);
      ForestSymsAppend(LeavesOf(freq, init), [leaf]);
      TotalWeightAppend(LeavesOf(freq, init), [leaf]);
      assert order == init + [last];
      SumFreqAppend(init, last, freq);
    }
  }

  lemma {:induction false} SumFreqAppend(order: seq<Sym>, s: Sym, freq: map<Sym, nat>)
    requires forall x :: x in order ==> x in freq
    requires s in freq
    ensures SumFreq(order + [s], freq) == SumFreq(order, freq) + freq[s]
  {
    if order == [] {
      assert order + [s] == [s];
    } else {
      assert (order + [s])[1..] == order[1..] + [s];
      SumFreqAppend(order[1..], s, freq);
    }
  }

  /**
   * Tree shape: for a non-empty table the builder returns a well-formed tree whose leaves
   * are exactly the keys of the table, each once and with its frequency, and whose root
   * weighs the sum of all frequencies. An empty table gives no tree.
   */
  lemma BuildTreeShape(freq: map<Sym, nat>, order: seq<Sym>)
    requires Enumerates(order, freq)
    ensures BuildTree(freq, order).Some? <==> |freq| > 0
    ensures BuildTree(freq, order).Some? ==>
      var root := BuildTree(freq, order).value;
      WellFormed(root) && LeavesAgree(root, freq) &&
      (forall s :: multiset(LeafSyms(root))[s] == if s in freq then 1 else 0) &&
      root.freq == SumFreq(order, freq)
  {
    EnumerationEmpty(order, freq);
    if order != [] {
      var leaves := LeavesOf(freq, order);
      LeavesOfFacts(freq, order);
      SortByFreqForestOk(leaves, freq);
      SortByFreqWeight(leaves);
      MergeAllPreserves(SortByFreq(leaves), freq);
      DistinctMultiplicity(order);
    }
  }

  /**
   * buildHuffmanTree: one leaf per key, sort, then merge the two front nodes of the
   * sorted array until one node is left.
   */
  method BuildHuffmanTree(freq: map<Sym, nat>, order: seq<Sym>) returns (root: Option<Tree>)
    requires Enumerates(order, freq)
    ensures root == BuildTree(freq, order)
    ensures root.Some? <==> |freq| > 0
  {
    var nodes: seq<Tree> := [];
    for i := 0 to |order|
      invariant nodes == LeavesOf(freq, order[..i])
    {
      nodes := nodes + [Leaf(order[i], freq[order[i]])];
      assert order[..i + 1][..i] == order[..i];
    }
    assert order[..|order|] == order;
    SortByFreqSorted(nodes);
    nodes := SortByFreq(nodes);
    ghost var initial := nodes;
    assert BuildTree(freq, order) == if order == [] then None else Some(MergeAll(initial));

    while |nodes| > 1
      invariant |nodes| == 0 <==> order == []
      invariant Sorted(nodes)
      invariant |nodes| > 0 ==> MergeAll(nodes) == MergeAll(initial)
      decreases |nodes|
    {
      ghost var before := nodes;
      var left := nodes[0];
      nodes := nodes[1..];
      var right := nodes[0];
      nodes := nodes[1..];
      var newNode := Node(left.freq + right.freq, left, right);
      nodes := nodes + [newNode];
      assert nodes == before[2..] + [Merge(before[0], before[1])];
      nodes := SortByFreq(nodes);
      assert nodes == MergeStep(before);
      MergeStepSorted(before);
    }

    if |nodes| == 0 {
      root := None;
    } else {
      root := Some(nodes[0]);
    }
    EnumerationEmpty(order, freq);
  }

  lemma EnumerationEmpty(order: seq<Sym>, freq: map<Sym, nat>)
    requires Enumerates(order, freq)
    ensures order == [] <==> |freq| == 0
  {
    if order != [] {
      assert order[0] in freq;
    } else {
      assert freq.Keys == {};
    }
  }
}
