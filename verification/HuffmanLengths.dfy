/**
 * Code lengths by bottom-up merging. The tree lives in the arrays `left` and `right`; here every
 * node also has its tree as a ghost value, and the properties are proved about trees.
 */
module HuffmanLengths {
  import opened Arith
  import opened HuffmanOptimality

  const ALPHABET: nat := 256

  datatype Tree = Leaf(symbol: nat) | Node(left: Tree, right: Tree)

  ghost predicate Over(t: Tree, n: nat) {
    match t
    case Leaf(s) => s < n
    case Node(l, r) => Over(l, n) && Over(r, n)
  }

  ghost function Symbols(t: Tree): multiset<nat> {
    match t
    case Leaf(s) => multiset{s}
    case Node(l, r) => Symbols(l) + Symbols(r)
  }

  ghost function Weight(t: Tree, freq: seq<nat>): nat {
    match t
    case Leaf(s) => if s < |freq| then freq[s] else 0
    case Node(l, r) => Weight(l, freq) + Weight(r, freq)
  }

  /** The weights of the inner nodes, which is what the merges add up to. */
  ghost function InnerWeight(t: Tree, freq: seq<nat>): nat {
    match t
    case Leaf(_) => 0
    case Node(l, r) => InnerWeight(l, freq) + InnerWeight(r, freq) + Weight(t, freq)
  }

  ghost function Height(t: Tree): nat {
    match t
    case Leaf(_) => 0
    case Node(l, r) => 1 + Max(Height(l), Height(r))
  }

  ghost function Size(t: Tree): nat {
    match t
    case Leaf(_) => 1
    case Node(l, r) => 1 + Size(l) + Size(r)
  }

  function LeafDepth(d: nat): nat {
    if d == 0 then 1 else d
  }

  /** Writes the depth of every leaf of `t`, whose root is at depth `d`, into `len`. */
  ghost function Lengths(t: Tree, d: nat, len: seq<nat>): (r: seq<nat>)
    requires Over(t, |len|)
    ensures |r| == |len|
  {
    match t
    case Leaf(s) => len[s := LeafDepth(d)]
    case Node(l, r) => Lengths(l, d + 1, Lengths(r, d + 1, len))
  }

  /** Kraft sum of a code-length table, in which length 0 means that the symbol has no code. */
  function TableShare(l: nat, d: nat): nat {
    if l == 0 then 0 else Share(l, d)
  }

  function TableShares(len: seq<nat>, d: nat): (r: seq<int>)
    ensures |r| == |len|
  {
    seq(|len|, i requires 0 <= i < |len| => TableShare(len[i], d))
  }

  function TableKraft(len: seq<nat>, d: nat): int {
    Sum(TableShares(len, d))
  }

  lemma TableKraftUpdate(len: seq<nat>, i: nat, v: nat, d: nat)
    requires i < |len|
    ensures TableKraft(len[i := v], d) == TableKraft(len, d) - TableShare(len[i], d) + TableShare(v, d)
  {
    assert TableShares(len[i := v], d) == TableShares(len, d)[i := TableShare(v, d)];
    SumUpdate(TableShares(len, d), i, TableShare(v, d));
  }

  /** The leaves of `t` are pairwise distinct and have no length yet. */
  ghost predicate Unset(t: Tree, len: seq<nat>) {
    && Over(t, |len|)
    && forall s :: 0 <= s < |len| && s in Symbols(t) ==> Symbols(t)[s] == 1 && len[s] == 0
  }

  lemma {:induction false} SymbolsInRange(t: Tree, n: nat)
    requires Over(t, n)
    ensures forall s :: s in Symbols(t) ==> s < n
  {
    if t.Node? {
      SymbolsInRange(t.left, n);
      SymbolsInRange(t.right, n);
    }
  }

  lemma UnsetParts(t: Tree, len: seq<nat>)
    requires t.Node? && Unset(t, len)
    ensures Unset(t.left, len) && Unset(t.right, len)
    ensures forall s :: s in Symbols(t.left) ==> s !in Symbols(t.right)
  {
    SymbolsInRange(t, |len|);
    forall s | s in Symbols(t.left) || s in Symbols(t.right)
      ensures s in Symbols(t) && Symbols(t.left)[s] + Symbols(t.right)[s] == 1
    {
      assert Symbols(t)[s] == Symbols(t.left)[s] + Symbols(t.right)[s];
    }
  }

  /** Which entries `Lengths` writes. */
  lemma {:induction false} LengthsFrame(t: Tree, d: nat, len: seq<nat>)
    requires Unset(t, len)
    ensures forall s :: 0 <= s < |len| && s !in Symbols(t) ==> Lengths(t, d, len)[s] == len[s]
    ensures forall s :: 0 <= s < |len| && s in Symbols(t) ==> LeafDepth(d) <= Lengths(t, d, len)[s] <= LeafDepth(d + Height(t))
    decreases t
  {
    if t.Node? {
      UnsetParts(t, len);
      LengthsFrame(t.right, d + 1, len);
      LengthsFrame(t.left, d + 1, Lengths(t.right, d + 1, len));
    }
  }

  /** A tree whose root is at depth d > 0 fills exactly the share of a code of length d. */
  lemma {:induction false} LengthsKraft(t: Tree, d: nat, len: seq<nat>, depth: nat)
    requires Unset(t, len)
    requires d > 0 || t.Node?
    requires d + Height(t) <= depth
    ensures TableKraft(Lengths(t, d, len), depth) == TableKraft(len, depth) + Pow2(depth - d)
    decreases t
  {
    hide TableKraft;
    match t
    case Leaf(s) => TableKraftUpdate(len, s, LeafDepth(d), depth);
    case Node(l, r) =>
      UnsetParts(t, len);
      LengthsFrame(r, d + 1, len);
      LengthsKraft(r, d + 1, len, depth);
      LengthsKraft(l, d + 1, Lengths(r, d + 1, len), depth);
  }

  /** The cost of the leaves of `t` when its root is at depth `d`. */
  ghost function DeepCost(t: Tree, d: nat, freq: seq<nat>): int
    requires Over(t, |freq|)
  {
    match t
    case Leaf(s) => freq[s] * LeafDepth(d)
    case Node(l, r) => DeepCost(l, d + 1, freq) + DeepCost(r, d + 1, freq)
  }

  lemma {:induction false} LengthsCost(t: Tree, d: nat, len: seq<nat>, freq: seq<nat>)
    requires Unset(t, len) && |freq| == |len|
    ensures Cost(freq, Lengths(t, d, len)) == Cost(freq, len) + DeepCost(t, d, freq)
    decreases t
  {
    match t
    case Leaf(s) => CostUpdate(freq, len, s, LeafDepth(d));
    case Node(l, r) =>
      UnsetParts(t, len);
      LengthsFrame(r, d + 1, len);
      LengthsCost(r, d + 1, len, freq);
      LengthsCost(l, d + 1, Lengths(r, d + 1, len), freq);
  }

  lemma {:induction false} DeepCostIsInnerWeight(t: Tree, d: nat, freq: seq<nat>)
    requires Over(t, |freq|)
    requires d > 0 || t.Node?
    ensures DeepCost(t, d, freq) == d * Weight(t, freq) + InnerWeight(t, freq)
    decreases t
  {
    match t
    case Leaf(s) =>
      assert freq[s] * d == d * freq[s];
    case Node(l, r) =>
      DeepCostIsInnerWeight(l, d + 1, freq);
      DeepCostIsInnerWeight(r, d + 1, freq);
      OneDeeper(d, Weight(l, freq), Weight(r, freq));
  }

  lemma OneDeeper(d: nat, a: nat, b: nat)
    ensures (d + 1) * a + (d + 1) * b == d * (a + b) + (a + b)
  {
  }

  /** Some leaf lies as deep as the tree is high. */
  lemma {:induction false} DeepestLeaf(t: Tree, d: nat, len: seq<nat>) returns (s: nat)
    requires Unset(t, len)
    ensures s < |len| && s in Symbols(t) && Lengths(t, d, len)[s] == LeafDepth(d + Height(t))
    decreases t
  {
    match t
    case Leaf(x) => s := x;
    case Node(l, r) =>
      UnsetParts(t, len);
      LengthsFrame(r, d + 1, len);
      if Height(r) <= Height(l) {
        s := DeepestLeaf(l, d + 1, Lengths(r, d + 1, len));
      } else {
        s := DeepestLeaf(r, d + 1, len);
        LengthsFrame(l, d + 1, Lengths(r, d + 1, len));
        assert s !in Symbols(l);
      }
  }

  lemma {:induction false} HeightBelowLeafCount(t: Tree)
    ensures Height(t) < |Symbols(t)|
  {
    if t.Node? {
      HeightBelowLeafCount(t.left);
      HeightBelowLeafCount(t.right);
    }
  }

  datatype Item = Item(weight: nat, id: nat)

  predicate Before(a: Item, b: Item) {
    a.weight < b.weight || (a.weight == b.weight && a.id <= b.id)
  }

  /** Takes the least item off the queue, as `top` and `pop` of the standard priority queue do. */
  method PopLeast(heap: seq<Item>) returns (least: Item, rest: seq<Item>, ghost at: nat)
    requires heap != []
    ensures at < |heap| && least == heap[at] && rest == RemoveAt(heap, at)
    ensures forall i :: 0 <= i < |heap| ==> Before(least, heap[i])
  {
    var k := 0;
    for i := 1 to |heap|
      invariant 0 <= k < |heap|
      invariant forall j :: 0 <= j < i ==> Before(heap[k], heap[j])
    {
      if !Before(heap[k], heap[i]) {
        k := i;
      }
    }
    least, rest, at := heap[k], RemoveAt(heap, k), k;
  }

  function Weights(heap: seq<Item>): (r: seq<nat>)
    ensures |r| == |heap|
  {
    seq(|heap|, i requires 0 <= i < |heap| => heap[i].weight)
  }

  /** The trees of the queued nodes. */
  ghost predicate Queued(heap: seq<Item>, trees: seq<Tree>, freq: seq<nat>) {
    && (forall i :: 0 <= i < |heap| ==> heap[i].id < |trees|)
    && (forall id :: 0 <= id < |trees| ==> Over(trees[id], |freq|))
    && (forall i :: 0 <= i < |heap| ==> heap[i].weight == Weight(trees[heap[i].id], freq))
  }

  /** The trees of the queued nodes, in queue order. */
  ghost function Forest(heap: seq<Item>, trees: seq<Tree>): (r: seq<Tree>)
    requires forall i :: 0 <= i < |heap| ==> heap[i].id < |trees|
    ensures |r| == |heap|
  {
    seq(|heap|, i requires 0 <= i < |heap| => trees[heap[i].id])
  }

  ghost function AllSymbols(ts: seq<Tree>): multiset<nat> {
    if ts == [] then multiset{} else Symbols(ts[0]) + AllSymbols(ts[1..])
  }

  ghost function AllInner(ts: seq<Tree>, freq: seq<nat>): nat {
    if ts == [] then 0 else InnerWeight(ts[0], freq) + AllInner(ts[1..], freq)
  }

  lemma {:induction false} ForestRemoveAt(ts: seq<Tree>, i: nat, freq: seq<nat>)
    requires i < |ts|
    ensures AllSymbols(ts) == AllSymbols(RemoveAt(ts, i)) + Symbols(ts[i])
    ensures AllInner(ts, freq) == AllInner(RemoveAt(ts, i), freq) + InnerWeight(ts[i], freq)
  {
    if i == 0 {
      assert RemoveAt(ts, i) == ts[1..];
    } else {
      ForestRemoveAt(ts[1..], i - 1, freq);
      assert RemoveAt(ts, i)[1..] == RemoveAt(ts[1..], i - 1);
    }
  }

  lemma ForestAppend(ts: seq<Tree>, t: Tree, freq: seq<nat>)
    ensures AllSymbols(ts + [t]) == AllSymbols(ts) + Symbols(t)
    ensures AllInner(ts + [t], freq) == AllInner(ts, freq) + InnerWeight(t, freq)
  {
    ForestRemoveAt(ts + [t], |ts|, freq);
    assert RemoveAt(ts + [t], |ts|) == ts;
  }

  /** The symbols that occur, as a bag, and their frequencies in symbol order. */
  ghost function UsedSymbols(freq: seq<nat>): multiset<nat> {
    if freq == [] then multiset{}
    else
      var n := |freq| - 1;
      UsedSymbols(freq[..n]) + (if freq[n] == 0 then multiset{} else multiset{n})
  }

  function UsedWeights(freq: seq<nat>): seq<nat> {
    if freq == [] then []
    else
      var n := |freq| - 1;
      UsedWeights(freq[..n]) + (if freq[n] == 0 then [] else [freq[n]])
  }

  lemma {:induction false} UsedSymbolsCount(freq: seq<nat>)
    ensures |UsedSymbols(freq)| == |UsedWeights(freq)| <= |freq|
  {
    if freq != [] {
      UsedSymbolsCount(freq[..|freq| - 1]);
    }
  }

  /** A symbol is used once if it occurs and not at all otherwise. */
  lemma {:induction false} UsedOnce(freq: seq<nat>, s: nat)
    ensures UsedSymbols(freq)[s] == if s < |freq| && freq[s] > 0 then 1 else 0
  {
    if freq != [] {
      UsedOnce(freq[..|freq| - 1], s);
    }
  }

  /** `left`, `right` hold the nodes of `trees`; a negative child marks a leaf. */
  ghost predicate Represents(left: seq<int>, right: seq<int>, trees: seq<Tree>, n: nat) {
    && |left| == |right| == |trees|
    && (forall id :: 0 <= id < |trees| ==> Over(trees[id], n))
    && (forall id :: 0 <= id < |trees| && left[id] < 0 ==> trees[id].Leaf?)
    && (forall id :: 0 <= id < |trees| && left[id] >= 0 ==>
          left[id] < id && 0 <= right[id] < id && trees[id] == Node(trees[left[id]], trees[right[id]]))
  }

  ghost predicate LeafIds(leafId: seq<int>, trees: seq<Tree>, n: nat) {
    && |leafId| == n
    && (forall s :: 0 <= s < n && 0 <= leafId[s] ==> leafId[s] < |trees| && trees[leafId[s]] == Leaf(s))
    && (forall id :: 0 <= id < |trees| && trees[id].Leaf? && trees[id].symbol < n ==> leafId[trees[id].symbol] == id)
  }

  /** The first `s` symbols have been looked at. */
  ghost predicate LeavesQueued(left: seq<int>, right: seq<int>, leafId: seq<int>, heap: seq<Item>, trees: seq<Tree>,
                               freq: seq<nat>, s: nat)
    requires s <= |freq|
  {
    && Represents(left, right, trees, |freq|) && LeafIds(leafId, trees, |freq|)
    && Queued(heap, trees, freq) && Weights(heap) == UsedWeights(freq[..s])
    && Forest(heap, trees) == trees
    && AllSymbols(trees) == UsedSymbols(freq[..s])
    && AllInner(trees, freq) == 0
    && (forall id :: 0 <= id < |trees| ==> trees[id].Leaf? && trees[id].symbol < s)
  }

  lemma LeafStep(left: seq<int>, right: seq<int>, leafId: seq<int>, heap: seq<Item>, trees: seq<Tree>,
                 freq: seq<nat>, s: nat)
    requires s < |freq| && LeavesQueued(left, right, leafId, heap, trees, freq, s)
    requires freq[s] != 0
    ensures LeavesQueued(left + [-1], right + [-1], leafId[s := |trees|], heap + [Item(freq[s], |trees|)],
                         trees + [Leaf(s)], freq, s + 1)
  {
    assert freq[..s + 1][..s] == freq[..s];
    ForestAppend(trees, Leaf(s), freq);
    LeafQueueStep(heap, trees, freq, s);
    LeafIdsStep(leafId, trees, |freq|, s);
    LeafNodesStep(left, right, trees, |freq|, s);
  }

  lemma LeafNodesStep(left: seq<int>, right: seq<int>, trees: seq<Tree>, n: nat, s: nat)
    requires s < n && Represents(left, right, trees, n)
    ensures Represents(left + [-1], right + [-1], trees + [Leaf(s)], n)
  {
  }

  lemma LeafQueueStep(heap: seq<Item>, trees: seq<Tree>, freq: seq<nat>, s: nat)
    requires s < |freq| && Queued(heap, trees, freq) && Forest(heap, trees) == trees
    ensures Queued(heap + [Item(freq[s], |trees|)], trees + [Leaf(s)], freq)
    ensures Forest(heap + [Item(freq[s], |trees|)], trees + [Leaf(s)]) == trees + [Leaf(s)]
    ensures Weights(heap + [Item(freq[s], |trees|)]) == Weights(heap) + [freq[s]]
  {
    var heap' := heap + [Item(freq[s], |trees|)];
    var trees' := trees + [Leaf(s)];
    assert Queued(heap', trees', freq);
    forall i | 0 <= i < |heap'| ensures trees'[heap'[i].id] == trees'[i] {
      if i < |heap| {
        assert Forest(heap, trees)[i] == trees[heap[i].id];
      }
    }
  }

  lemma LeafIdsStep(leafId: seq<int>, trees: seq<Tree>, n: nat, s: nat)
    requires s < n && LeafIds(leafId, trees, n)
    requires forall id :: 0 <= id < |trees| ==> trees[id].Leaf? && trees[id].symbol < s
    ensures LeafIds(leafId[s := |trees|], trees + [Leaf(s)], n)
  {
  }

  /** One leaf per occurring symbol, queued with its frequency. */
  method QueueLeaves(freq: seq<nat>)
    returns (nfreq: seq<nat>, left: seq<int>, right: seq<int>, leafId: seq<int>, heap: seq<Item>, ghost trees: seq<Tree>)
    requires |freq| == ALPHABET
    ensures |nfreq| == |trees|
    ensures LeavesQueued(left, right, leafId, heap, trees, freq, ALPHABET)
  {
    nfreq, left, right, heap, trees := [], [], [], [], [];
    leafId := seq(ALPHABET, _ => -1);
    for s := 0 to ALPHABET
      invariant |nfreq| == |trees|
      invariant LeavesQueued(left, right, leafId, heap, trees, freq, s)
    {
      if freq[s] != 0 {
        LeafStep(left, right, leafId, heap, trees, freq, s);
        var id := |nfreq|;
        nfreq, left, right := nfreq + [freq[s]], left + [-1], right + [-1];
        leafId := leafId[s := id];
        heap := heap + [Item(freq[s], id)];
        trees := trees + [Leaf(s)];
      } else {
        assert freq[..s + 1][..s] == freq[..s];
      }
    }
  }

  /** What bounds the weights still queued bounds, with what has been merged, the initial weights. */
  ghost predicate MergedOptimally(queued: seq<nat>, merged: int, initial: seq<nat>) {
    forall x :: LowerBound(queued, x) ==> LowerBound(initial, x + merged)
  }

  /** The state of the merge loop. */
  ghost predicate Merging(left: seq<int>, right: seq<int>, leafId: seq<int>, heap: seq<Item>, trees: seq<Tree>,
                          freq: seq<nat>)
  {
    && Represents(left, right, trees, |freq|) && LeafIds(leafId, trees, |freq|)
    && Queued(heap, trees, freq)
    && AllSymbols(Forest(heap, trees)) == UsedSymbols(freq)
    && MergedOptimally(Weights(heap), AllInner(Forest(heap, trees), freq), UsedWeights(freq))
  }

  lemma ForestWithout(heap: seq<Item>, i: nat, trees: seq<Tree>, freq: seq<nat>)
    requires i < |heap| && Queued(heap, trees, freq)
    ensures Queued(RemoveAt(heap, i), trees, freq)
    ensures Forest(RemoveAt(heap, i), trees) == RemoveAt(Forest(heap, trees), i)
    ensures Weights(RemoveAt(heap, i)) == RemoveAt(Weights(heap), i)
  {
  }

  /** `heap1` is the queue without its least item, at `i`, and `heap2` that without its own, at `j`. */
  ghost predicate TwoLeast(heap: seq<Item>, i: nat, heap1: seq<Item>, j: nat, heap2: seq<Item>) {
    && i < |heap| && heap1 == RemoveAt(heap, i)
    && j < |heap1| && heap2 == RemoveAt(heap1, j)
    && (forall k :: 0 <= k < |heap| ==> Before(heap[i], heap[k]))
    && (forall k :: 0 <= k < |heap1| ==> Before(heap1[j], heap1[k]))
  }

  /** Merging two queued trees keeps their symbols and adds their weight to what has been merged. */
  lemma MergeForest(heap: seq<Item>, i: nat, heap1: seq<Item>, j: nat, heap2: seq<Item>,
                    trees: seq<Tree>, t: Tree, freq: seq<nat>)
    requires TwoLeast(heap, i, heap1, j, heap2) && Queued(heap, trees, freq)
    requires t == Node(trees[heap[i].id], trees[heap1[j].id])
    ensures Over(t, |freq|) && Weight(t, freq) == heap[i].weight + heap1[j].weight
    ensures Queued(heap2, trees, freq)
    ensures AllSymbols(Forest(heap2, trees) + [t]) == AllSymbols(Forest(heap, trees))
    ensures AllInner(Forest(heap2, trees) + [t], freq) == AllInner(Forest(heap, trees), freq) + Weight(t, freq)
  {
    ForestWithout(heap, i, trees, freq);
    ForestWithout(heap1, j, trees, freq);
    ForestRemoveAt(Forest(heap, trees), i, freq);
    ForestRemoveAt(Forest(heap1, trees), j, freq);
    ForestAppend(Forest(heap2, trees), t, freq);
  }

  lemma QueueNode(heap: seq<Item>, trees: seq<Tree>, t: Tree, freq: seq<nat>)
    requires Queued(heap, trees, freq) && Over(t, |freq|)
    ensures Queued(heap + [Item(Weight(t, freq), |trees|)], trees + [t], freq)
    ensures Forest(heap + [Item(Weight(t, freq), |trees|)], trees + [t]) == Forest(heap, trees) + [t]
  {
  }

  lemma MergeQueue(heap: seq<Item>, i: nat, heap1: seq<Item>, j: nat, heap2: seq<Item>,
                   trees: seq<Tree>, t: Tree, freq: seq<nat>)
    requires TwoLeast(heap, i, heap1, j, heap2) && Queued(heap, trees, freq)
    requires t == Node(trees[heap[i].id], trees[heap1[j].id])
    ensures var w := heap[i].weight + heap1[j].weight;
      && Queued(heap2 + [Item(w, |trees|)], trees + [t], freq)
      && AllSymbols(Forest(heap2 + [Item(w, |trees|)], trees + [t])) == AllSymbols(Forest(heap, trees))
      && AllInner(Forest(heap2 + [Item(w, |trees|)], trees + [t]), freq) == AllInner(Forest(heap, trees), freq) + w
  {
    MergeForest(heap, i, heap1, j, heap2, trees, t, freq);
    QueueNode(heap2, trees, t, freq);
  }

  lemma MergeStaysOptimal(heap: seq<Item>, i: nat, heap1: seq<Item>, j: nat, heap2: seq<Item>,
                          merged: int, initial: seq<nat>)
    requires TwoLeast(heap, i, heap1, j, heap2)
    requires MergedOptimally(Weights(heap), merged, initial)
    ensures var w := heap[i].weight + heap1[j].weight;
      MergedOptimally(Weights(heap2) + [w], merged + w, initial)
  {
    var ws := Weights(heap);
    var w := heap[i].weight + heap1[j].weight;
    assert Weights(heap1) == RemoveAt(ws, i);
    assert Weights(heap2) == RemoveAt(Weights(heap1), j);
    forall x | LowerBound(Weights(heap2) + [w], x)
      ensures LowerBound(initial, x + (merged + w))
    {
      MergeLowerBound(ws, i, j, x);
      assert LowerBound(initial, x + w + merged);
      assert x + w + merged == x + (merged + w);
    }
  }

  lemma NodesStep(left: seq<int>, right: seq<int>, leafId: seq<int>, trees: seq<Tree>, n: nat, l: nat, r: nat)
    requires Represents(left, right, trees, n) && LeafIds(leafId, trees, n)
    requires l < |trees| && r < |trees|
    ensures Represents(left + [l], right + [r], trees + [Node(trees[l], trees[r])], n)
    ensures LeafIds(leafId, trees + [Node(trees[l], trees[r])], n)
  {
  }

  lemma MergingStep(left: seq<int>, right: seq<int>, leafId: seq<int>, heap: seq<Item>, i: nat, a: Item, heap1: seq<Item>,
                    j: nat, b: Item, heap2: seq<Item>, trees: seq<Tree>, t: Tree, freq: seq<nat>)
    requires Merging(left, right, leafId, heap, trees, freq)
    requires TwoLeast(heap, i, heap1, j, heap2) && a == heap[i] && b == heap1[j]
    requires a.id < |trees| && b.id < |trees| && t == Node(trees[a.id], trees[b.id])
    ensures Merging(left + [a.id], right + [b.id], leafId, heap2 + [Item(a.weight + b.weight, |trees|)], trees + [t], freq)
  {
    hide TwoLeast;
    hide Represents;
    hide LeafIds;
    hide MergedOptimally;
    hide AllSymbols;
    hide AllInner;
    hide UsedWeights;

    MergeQueue(heap, i, heap1, j, heap2, trees, t, freq);
    MergeStaysOptimal(heap, i, heap1, j, heap2, AllInner(Forest(heap, trees), freq), UsedWeights(freq));
    assert Weights(heap2 + [Item(a.weight + b.weight, |trees|)]) == Weights(heap2) + [a.weight + b.weight];
    NodesStep(left, right, leafId, trees, |freq|, a.id, b.id);
  }

  lemma TwoLeastQueued(heap: seq<Item>, i: nat, heap1: seq<Item>, j: nat, heap2: seq<Item>, trees: seq<Tree>, freq: seq<nat>)
    requires TwoLeast(heap, i, heap1, j, heap2) && Queued(heap, trees, freq)
    ensures heap[i].id < |trees| && heap1[j].id < |trees|
  {
    ForestWithout(heap, i, trees, freq);
  }

  lemma MergingDone(left: seq<int>, right: seq<int>, leafId: seq<int>, heap: seq<Item>, trees: seq<Tree>, freq: seq<nat>)
    requires Merging(left, right, leafId, heap, trees, freq) && |heap| == 1
    ensures Symbols(trees[heap[0].id]) == UsedSymbols(freq)
    ensures LowerBound(UsedWeights(freq), InnerWeight(trees[heap[0].id], freq))
  {
    var t := trees[heap[0].id];
    assert Forest(heap, trees) == [t];
    ForestAppend([], t, freq);
    assert [] + [t] == [t];
    forall ls: seq<nat> | |ls| == 1 ensures 0 <= Cost(Weights(heap), ls) {
      CostNonNegative(Weights(heap), ls);
    }
    assert LowerBound(Weights(heap), 0);
  }

  /** Merges the two least nodes until one is left. */
  method MergeAll(freq: seq<nat>, nfreq0: seq<nat>, left0: seq<int>, right0: seq<int>, ghost leafId: seq<int>,
                  heap0: seq<Item>, ghost trees0: seq<Tree>)
    returns (root: nat, left: seq<int>, right: seq<int>, ghost trees: seq<Tree>)
    requires |nfreq0| == |trees0| && |heap0| > 1
    requires Merging(left0, right0, leafId, heap0, trees0, freq)
    ensures root < |trees|
    ensures Represents(left, right, trees, |freq|) && LeafIds(leafId, trees, |freq|)
    ensures trees[root].Node? && Symbols(trees[root]) == UsedSymbols(freq)
    ensures LowerBound(UsedWeights(freq), InnerWeight(trees[root], freq))
  {
    var nfreq, heap := nfreq0, heap0;
    left, right, trees := left0, right0, trees0;
    while |heap| > 1
      invariant |nfreq| == |trees| && |heap| > 0
      invariant Merging(left, right, leafId, heap, trees, freq)
      invariant |heap| == 1 ==> trees[heap[0].id].Node?
      decreases |heap|
    {
      var a, heap1, i := PopLeast(heap);
      var b, heap2, j := PopLeast(heap1);
      TwoLeastQueued(heap, i, heap1, j, heap2, trees, freq);
      ghost var t := Node(trees[a.id], trees[b.id]);
      MergingStep(left, right, leafId, heap, i, a, heap1, j, b, heap2, trees, t, freq);
      var id := |nfreq|;
      nfreq, left, right := nfreq + [a.weight + b.weight], left + [a.id], right + [b.id];
      heap := heap2 + [Item(a.weight + b.weight, id)];
      trees := trees + [t];
    }
    MergingDone(left, right, leafId, heap, trees, freq);
    root := heap[0].id;
  }

  /** The entries of the depth-first stack lie in the tree, none deeper than `limit`. */
  ghost predicate Stacked(stack: seq<(nat, nat)>, trees: seq<Tree>, n: nat, limit: nat) {
    && (forall id :: 0 <= id < |trees| ==> Over(trees[id], n))
    && (forall i :: 0 <= i < |stack| ==> stack[i].0 < |trees| && stack[i].1 + Height(trees[stack[i].0]) <= limit)
  }

  /** What the lengths become when the rest of the stack is worked off. */
  ghost function Pending(stack: seq<(nat, nat)>, trees: seq<Tree>, limit: nat, len: seq<nat>): seq<nat>
    requires Stacked(stack, trees, |len|, limit)
  {
    if stack == [] then len
    else
      var (id, d) := stack[|stack| - 1];
      Pending(stack[..|stack| - 1], trees, limit, Lengths(trees[id], d, len))
  }

  ghost function PendingMax(stack: seq<(nat, nat)>, trees: seq<Tree>, n: nat, limit: nat, m: nat): nat
    requires Stacked(stack, trees, n, limit)
  {
    if stack == [] then m
    else
      var (id, d) := stack[|stack| - 1];
      PendingMax(stack[..|stack| - 1], trees, n, limit, Max(m, LeafDepth(d + Height(trees[id]))))
  }

  ghost function PendingSize(stack: seq<(nat, nat)>, trees: seq<Tree>, n: nat, limit: nat): nat
    requires Stacked(stack, trees, n, limit)
  {
    if stack == [] then 0
    else PendingSize(stack[..|stack| - 1], trees, n, limit) + Size(trees[stack[|stack| - 1].0])
  }

  /** Replacing an inner node by its children leaves the outcome as it was. */
  lemma ExpandNode(stack: seq<(nat, nat)>, trees: seq<Tree>, limit: nat, len: seq<nat>, m: nat, l: nat, r: nat)
    requires stack != [] && Stacked(stack, trees, |len|, limit) && l < |trees| && r < |trees|
    requires trees[stack[|stack| - 1].0] == Node(trees[l], trees[r])
    ensures var d := stack[|stack| - 1].1;
      var below := stack[..|stack| - 1];
      var stack' := below + [(l, d + 1)] + [(r, d + 1)];
      && Stacked(stack', trees, |len|, limit)
      && Pending(stack', trees, limit, len) == Pending(stack, trees, limit, len)
      && PendingMax(stack', trees, |len|, limit, m) == PendingMax(stack, trees, |len|, limit, m)
      && PendingSize(stack', trees, |len|, limit) < PendingSize(stack, trees, |len|, limit)
  {
    hide Pending;
    hide PendingMax;
    hide PendingSize;
    hide Lengths;
    var d := stack[|stack| - 1].1;
    var below := stack[..|stack| - 1];
    var mid := below + [(l, d + 1)];
    var stack' := mid + [(r, d + 1)];
    NodeParts(trees[l], trees[r], d, len);
    assert stack'[..|stack'| - 1] == mid && mid[..|mid| - 1] == below;
    assert Stacked(below, trees, |len|, limit) && Stacked(mid, trees, |len|, limit);
    assert Stacked(stack', trees, |len|, limit);
    hide Stacked;
    hide Height;
    hide Size;
    hide LeafDepth;
    PendingTop(stack', trees, limit, len, m);
    PendingTop(mid, trees, limit, Lengths(trees[r], d + 1, len), Max(m, LeafDepth(d + 1 + Height(trees[r]))));
    PendingTop(stack, trees, limit, len, m);
  }

  lemma LeafParts(t: Tree, d: nat, len: seq<nat>)
    requires Over(t, |len|)
    ensures t.Leaf? ==> Lengths(t, d, len) == len[t.symbol := LeafDepth(d)] && Height(t) == 0 && Size(t) > 0
  {
  }

  lemma NodeParts(l: Tree, r: Tree, d: nat, len: seq<nat>)
    requires Over(Node(l, r), |len|)
    ensures Over(l, |len|) && Over(r, |len|)
    ensures Lengths(Node(l, r), d, len) == Lengths(l, d + 1, Lengths(r, d + 1, len))
    ensures Max(LeafDepth(d + 1 + Height(r)), LeafDepth(d + 1 + Height(l))) == LeafDepth(d + Height(Node(l, r)))
    ensures d + 1 + Height(l) <= d + Height(Node(l, r)) && d + 1 + Height(r) <= d + Height(Node(l, r))
    ensures Size(l) + Size(r) < Size(Node(l, r))
  {
  }

  /** The top entry of the stack is worked off first. */
  lemma PendingTop(stack: seq<(nat, nat)>, trees: seq<Tree>, limit: nat, len: seq<nat>, m: nat)
    requires stack != [] && Stacked(stack, trees, |len|, limit)
    ensures var (id, d) := stack[|stack| - 1];
      var below := stack[..|stack| - 1];
      && id < |trees| && Stacked(below, trees, |len|, limit) && Over(trees[id], |len|)
      && |Lengths(trees[id], d, len)| == |len|
      && Pending(stack, trees, limit, len) == Pending(below, trees, limit, Lengths(trees[id], d, len))
      && PendingMax(stack, trees, |len|, limit, m)
         == PendingMax(below, trees, |len|, limit, Max(m, LeafDepth(d + Height(trees[id]))))
      && PendingSize(stack, trees, |len|, limit) == PendingSize(below, trees, |len|, limit) + Size(trees[id])
  {
  }

  /** Writes the length of the one symbol whose leaf is `id`. */
  method SetLength(len0: seq<nat>, leafId: seq<int>, id: nat, d: nat, ghost trees: seq<Tree>) returns (len: seq<nat>)
    requires |len0| == |leafId| && LeafIds(leafId, trees, |len0|)
    requires id < |trees| && trees[id].Leaf? && trees[id].symbol < |len0|
    requires d < ALPHABET
    ensures len == len0[trees[id].symbol := d]
  {
    len := len0;
    for s := 0 to |len0|
      invariant len == if s <= trees[id].symbol then len0 else len0[trees[id].symbol := d]
    {
      if leafId[s] == id {
        len := len[s := d % ALPHABET];
      }
    }
  }

  lemma PendingStart(root: nat, trees: seq<Tree>, n: nat)
    requires root < |trees| && 0 < Height(trees[root]) && forall id :: 0 <= id < |trees| ==> Over(trees[id], n)
    ensures var stack, limit, zeros := [(root, 0)], Height(trees[root]), seq(n, _ => 0);
      && Stacked(stack, trees, n, limit)
      && Pending(stack, trees, limit, zeros) == Lengths(trees[root], 0, zeros)
      && PendingMax(stack, trees, n, limit, 0) == limit
  {
    assert [(root, 0)][..0] == [];
  }

  lemma NothingPending(trees: seq<Tree>, n: nat, limit: nat, len: seq<nat>, m: nat)
    requires |len| == n && Stacked([], trees, n, limit)
    ensures Pending([], trees, limit, len) == len && PendingMax([], trees, n, limit, m) == m
  {
  }

  /** Reads the lengths off the tree by depth, depth first from the root. */
  method ReadLengths(root: nat, left: seq<int>, right: seq<int>, leafId: seq<int>, ghost trees: seq<Tree>)
    returns (len: seq<nat>, maxLen: nat)
    requires Represents(left, right, trees, |leafId|) && LeafIds(leafId, trees, |leafId|)
    requires root < |trees| && 0 < Height(trees[root]) < ALPHABET
    ensures |len| == |leafId| && len == Lengths(trees[root], 0, seq(|leafId|, _ => 0))
    ensures maxLen == Height(trees[root])
  {
    hide Pending;
    hide PendingMax;
    hide PendingSize;
    hide Lengths;
    hide Height;
    hide Size;
    var n := |leafId|;
    ghost var limit := Height(trees[root]);
    len, maxLen := seq(n, _ => 0), 0;
    var stack: seq<(nat, nat)> := [(root, 0)];
    PendingStart(root, trees, n);
    while stack != []
      invariant |len| == n && Stacked(stack, trees, n, limit)
      invariant Pending(stack, trees, limit, len) == Lengths(trees[root], 0, seq(n, _ => 0))
      invariant PendingMax(stack, trees, n, limit, maxLen) == limit
      decreases PendingSize(stack, trees, n, limit)
    {
      var (id, depth) := stack[|stack| - 1];
      var below := stack[..|stack| - 1];
      PendingTop(stack, trees, limit, len, maxLen);
      if left[id] < 0 {
        LeafParts(trees[id], depth, len);
        var d := LeafDepth(depth);
        maxLen := Max(maxLen, d);
        len := SetLength(len, leafId, id, d, trees);
        stack := below;
      } else {
        ExpandNode(stack, trees, limit, len, maxLen, left[id], right[id]);
        stack := below + [(left[id], depth + 1)] + [(right[id], depth + 1)];
      }
    }
    NothingPending(trees, n, limit, len, maxLen);
  }

  /** The lengths a table gives to the symbols that occur. */
  function UsedLengths(freq: seq<nat>, len: seq<nat>): (r: seq<nat>)
    requires |len| == |freq|
    ensures |r| == |UsedWeights(freq)|
  {
    if freq == [] then []
    else
      var n := |freq| - 1;
      UsedLengths(freq[..n], len[..n]) + (if freq[n] == 0 then [] else [len[n]])
  }

  lemma {:induction false} UsedCost(freq: seq<nat>, len: seq<nat>)
    requires |len| == |freq|
    ensures Cost(freq, len) == Cost(UsedWeights(freq), UsedLengths(freq, len))
  {
    if freq != [] {
      var n := |freq| - 1;
      UsedCost(freq[..n], len[..n]);
      CostAppend(freq[..n], len[..n], freq[n], len[n]);
      assert freq[..n] + [freq[n]] == freq && len[..n] + [len[n]] == len;
      if freq[n] != 0 {
        CostAppend(UsedWeights(freq[..n]), UsedLengths(freq[..n], len[..n]), freq[n], len[n]);
      } else {
        assert UsedWeights(freq) == UsedWeights(freq[..n]) && UsedLengths(freq, len) == UsedLengths(freq[..n], len[..n]);
      }
    }
  }

  /** No prefix code for the occurring symbols is cheaper than `len`: every assignment of lengths
      that satisfies Kraft's inequality costs at least as much. */
  ghost predicate Optimal(freq: seq<nat>, len: seq<nat>)
    requires |len| == |freq|
  {
    forall other: seq<nat>, d: nat :: |other| == |freq| && Feasible(UsedLengths(freq, other), d)
      ==> Cost(freq, len) <= Cost(freq, other)
  }

  /** What the lengths of a merge tree over the occurring symbols satisfy. */
  lemma TreeLengths(t: Tree, freq: seq<nat>)
    requires Over(t, |freq|) && t.Node? && Symbols(t) == UsedSymbols(freq)
    requires LowerBound(UsedWeights(freq), InnerWeight(t, freq))
    ensures var len := Lengths(t, 0, seq(|freq|, _ => 0));
      && (forall s :: 0 <= s < |freq| ==> (0 < len[s] <==> 0 < freq[s]) && len[s] <= Height(t))
      && (exists s :: 0 <= s < |freq| && len[s] == Height(t))
      && (forall d :: Height(t) <= d ==> TableKraft(len, d) == Pow2(d))
      && Optimal(freq, len)
  {
    hide Lengths;
    hide TableKraft;
    hide Optimal;
    hide LowerBound;
    hide InnerWeight;
    hide UsedSymbols;
    var zeros: seq<nat> := seq(|freq|, _ => 0);
    var len := Lengths(t, 0, zeros);
    TreeLengthRange(t, freq);
    UsedUnset(t, freq);
    forall d | Height(t) <= d ensures TableKraft(len, d) == Pow2(d) {
      LengthsKraft(t, 0, zeros, d);
      ZeroSums(|freq|, freq, d);
    }
    TreeIsOptimal(t, freq);
  }

  lemma TreeLengthRange(t: Tree, freq: seq<nat>)
    requires Over(t, |freq|) && t.Node? && Symbols(t) == UsedSymbols(freq)
    ensures var len := Lengths(t, 0, seq(|freq|, _ => 0));
      && (forall s :: 0 <= s < |freq| ==> (0 < len[s] <==> 0 < freq[s]) && len[s] <= Height(t))
      && (exists s :: 0 <= s < |freq| && len[s] == Height(t))
  {
    hide UsedSymbols;
    hide Symbols;
    hide Over;
    var zeros: seq<nat> := seq(|freq|, _ => 0);
    var len := Lengths(t, 0, zeros);
    UsedUnset(t, freq);
    LengthsFrame(t, 0, zeros);
    var deepest := DeepestLeaf(t, 0, zeros);
    forall s | 0 <= s < |freq|
      ensures (0 < len[s] <==> 0 < freq[s]) && len[s] <= Height(t)
    {
      UsedOnce(freq, s);
      assert s in Symbols(t) <==> 0 < freq[s];
    }
  }

  lemma UsedUnset(t: Tree, freq: seq<nat>)
    requires Over(t, |freq|) && Symbols(t) == UsedSymbols(freq)
    ensures Unset(t, seq(|freq|, _ => 0))
  {
    hide UsedSymbols;
    hide Symbols;
    forall s | 0 <= s < |freq| && s in Symbols(t) ensures Symbols(t)[s] == 1 {
      UsedOnce(freq, s);
    }
  }

  lemma TreeIsOptimal(t: Tree, freq: seq<nat>)
    requires Over(t, |freq|) && t.Node? && Symbols(t) == UsedSymbols(freq)
    requires LowerBound(UsedWeights(freq), InnerWeight(t, freq))
    ensures Optimal(freq, Lengths(t, 0, seq(|freq|, _ => 0)))
  {
    var zeros: seq<nat> := seq(|freq|, _ => 0);
    var len := Lengths(t, 0, zeros);
    UsedUnset(t, freq);
    LengthsCost(t, 0, zeros, freq);
    DeepCostIsInnerWeight(t, 0, freq);
    ZeroSums(|freq|, freq, 0);
    assert Cost(freq, len) == InnerWeight(t, freq);
    forall other: seq<nat>, d: nat | |other| == |freq| && Feasible(UsedLengths(freq, other), d)
      ensures Cost(freq, len) <= Cost(freq, other)
    {
      UsedCost(freq, other);
    }
  }

  lemma {:induction false} ZeroSums(n: nat, freq: seq<nat>, d: nat)
    requires |freq| == n
    ensures TableKraft(seq(n, _ => 0), d) == 0
    ensures Cost(freq, seq(n, _ => 0)) == 0
  {
    if n > 0 {
      ZeroSums(n - 1, freq[1..], d);
      assert TableShares(seq(n, _ => 0), d)[1..] == TableShares(seq(n - 1, _ => 0), d);
      assert Products(freq, seq(n, _ => 0))[1..] == Products(freq[1..], seq(n - 1, _ => 0));
    }
  }

  /**
   * Huffman code lengths of a frequency table. Two or more occurring symbols get an optimal,
   * complete code; a lone symbol gets length 1, and length 0 marks the symbols that do not occur.
   */
  method CodeLengths(freq: seq<nat>) returns (len: seq<nat>, maxLen: nat)
    requires |freq| == ALPHABET
    ensures |len| == ALPHABET && maxLen < ALPHABET
    ensures forall s :: 0 <= s < ALPHABET ==> (0 < len[s] <==> 0 < freq[s]) && len[s] <= maxLen
    ensures maxLen > 0 ==> exists s :: 0 <= s < ALPHABET && len[s] == maxLen
    ensures maxLen == 0 <==> forall s :: 0 <= s < ALPHABET ==> freq[s] == 0
    ensures |UsedWeights(freq)| == 1 ==> maxLen == 1 && forall d :: 1 <= d ==> TableKraft(len, d) == Pow2(d - 1)
    ensures |UsedWeights(freq)| >= 2 ==> Optimal(freq, len)
    ensures |UsedWeights(freq)| >= 2 ==> forall d :: maxLen <= d ==> TableKraft(len, d) == Pow2(d)
  {
    UsedSymbolsCount(freq);
    ghost var trees;
    var nfreq, left, right, leafId, heap;
    nfreq, left, right, leafId, heap, trees := QueueLeaves(freq);
    assert freq[..ALPHABET] == freq;
    maxLen := 0;
    len := seq(ALPHABET, _ => 0);
    if heap == [] {
      NoneUsed(freq);
      return;
    }
    if |heap| == 1 {
      for s := 0 to ALPHABET
        invariant |len| == ALPHABET
        invariant forall i :: 0 <= i < ALPHABET ==> len[i] == if i < s && freq[i] > 0 then 1 else 0
      {
        if freq[s] > 0 {
          len := len[s := 1];
        }
      }
      NoneUsed(freq);
      forall d | 1 <= d ensures TableKraft(len, d) == Pow2(d - 1) {
        OnesKraft(freq, len, d);
      }
      maxLen := 1;
      return;
    }
    MergingStart(left, right, leafId, heap, trees, freq);
    var root;
    root, left, right, trees := MergeAll(freq, nfreq, left, right, leafId, heap, trees);
    HeightBelowLeafCount(trees[root]);
    len, maxLen := ReadLengths(root, left, right, leafId, trees);
    TreeLengths(trees[root], freq);
  }

  lemma {:induction false} OnesKraft(freq: seq<nat>, len: seq<nat>, d: nat)
    requires |len| == |freq| && d > 0
    requires forall s :: 0 <= s < |freq| ==> len[s] == if freq[s] > 0 then 1 else 0
    ensures TableKraft(len, d) == |UsedWeights(freq)| * Pow2(d - 1)
  {
    if freq != [] {
      var n := |freq| - 1;
      OnesKraft(freq[..n], len[..n], d);
      assert TableShares(len, d) == TableShares(len[..n], d) + [TableShare(len[n], d)];
      SumConcat(TableShares(len[..n], d), [TableShare(len[n], d)]);
      NextProduct(|UsedWeights(freq[..n])|, Pow2(d - 1));
    }
  }

  lemma {:induction false} NoneUsed(freq: seq<nat>)
    ensures UsedWeights(freq) == [] <==> forall s :: 0 <= s < |freq| ==> freq[s] == 0
  {
    if freq != [] {
      NoneUsed(freq[..|freq| - 1]);
    }
  }

  lemma MergingStart(left: seq<int>, right: seq<int>, leafId: seq<int>, heap: seq<Item>, trees: seq<Tree>, freq: seq<nat>)
    requires LeavesQueued(left, right, leafId, heap, trees, freq, |freq|)
    ensures Merging(left, right, leafId, heap, trees, freq)
  {
    assert freq[..|freq|] == freq;
  }
}
