/**
 * Left recursion. A rule left-refers to another when an alternate reaches it through nullable
 * references only. The depth-first search finds a rule on a cycle of that relation exactly when
 * there is a cycle, and otherwise its finishing order ranks the rules.
 */
module GrammarLeftRecursion {
  import opened Results
  import opened GrammarRules
  import opened GrammarNullable

  /** Rule `v` can be reached from `p` without consuming input. */
  ghost predicate LeftRef(rules: Rules, p: Pos, v: nat)
    decreases if p.rule < |rules| && p.at < |rules[p.rule]| then |rules[p.rule]| - p.at else 0
  {
    && p.rule < |rules| && p.at < |rules[p.rule]| && Elem(rules, p).kind == RuleRef
    && (Elem(rules, p).value == v
        || (Elem(rules, p).value < |rules| && Nullable(rules, Elem(rules, p).value) && LeftRef(rules, Next(p), v)))
  }

  ghost predicate Edge(rules: Rules, u: nat, v: nat) {
    u < |rules| && exists a: nat :: StartsAlternate(rules[u], a) && LeftRef(rules, Pos(u, a), v)
  }

  type Graph = seq<seq<nat>>

  ghost predicate InGraph(edges: Graph) {
    forall u, j :: 0 <= u < |edges| && 0 <= j < |edges[u]| ==> edges[u][j] < |edges|
  }

  ghost predicate IsPath(edges: Graph, path: seq<nat>) {
    && path != []
    && (forall i :: 0 <= i < |path| ==> path[i] < |edges|)
    && (forall i :: 0 <= i < |path| - 1 ==> path[i + 1] in edges[path[i]])
  }

  ghost predicate OnCycle(edges: Graph, v: nat) {
    exists path :: IsPath(edges, path) && |path| > 1 && path[0] == v == path[|path| - 1]
  }

  /** Every edge leads to a smaller rank. */
  ghost predicate Ranks(edges: Graph, rank: seq<nat>) {
    && |rank| == |edges|
    && forall u, j :: 0 <= u < |edges| && 0 <= j < |edges[u]| ==> edges[u][j] < |edges| && rank[edges[u][j]] < rank[u]
  }

  lemma {:induction false} RankFallsAlongPath(edges: Graph, rank: seq<nat>, path: seq<nat>)
    requires Ranks(edges, rank) && IsPath(edges, path)
    ensures |path| > 1 ==> rank[path[|path| - 1]] < rank[path[0]]
  {
    if |path| > 1 {
      var tail := path[1..];
      assert tail[0] in edges[path[0]];
      forall i | 0 <= i < |tail| - 1 ensures tail[i + 1] in edges[tail[i]] {
        assert tail[i] == path[i + 1] && tail[i + 1] == path[i + 1 + 1];
      }
      RankFallsAlongPath(edges, rank, tail);
      assert tail[|tail| - 1] == path[|path| - 1];
    }
  }

  lemma RankedHasNoCycle(edges: Graph, rank: seq<nat>, v: nat)
    requires Ranks(edges, rank)
    ensures !OnCycle(edges, v)
  {
    if OnCycle(edges, v) {
      var path :| IsPath(edges, path) && |path| > 1 && path[0] == v == path[|path| - 1];
      RankFallsAlongPath(edges, rank, path);
    }
  }

  // ---- building the graph -------------------------------------------------------------------

  ghost predicate IsLeftGraph(rules: Rules, edges: Graph) {
    && |edges| == |rules|
    && forall u, v :: 0 <= u < |rules| && 0 <= v ==> (v in edges[u] <==> Edge(rules, u, v))
  }

  /** Rule `v` is a left reference of the current alternate, if still `inLeft`, or of a later one. */
  ghost predicate ScanRef(rules: Rules, p: Pos, inLeft: bool, v: nat) {
    && p.rule < |rules| && p.at < |rules[p.rule]|
    && (|| (inLeft && LeftRef(rules, p, v))
        || exists a: nat :: p.at < a && StartsAlternate(rules[p.rule], a) && LeftRef(rules, Pos(p.rule, a), v))
  }

  lemma ScanRefAtEnd(rules: Rules, p: Pos, inLeft: bool, v: nat)
    requires WellFormed(rules) && IsPlace(rules, p) && IsEnd(Elem(rules, p))
    ensures Elem(rules, p).kind == End ==> !ScanRef(rules, p, inLeft, v)
    ensures Elem(rules, p).kind == Alt ==> IsPlace(rules, Next(p))
    ensures Elem(rules, p).kind == Alt ==> (ScanRef(rules, p, inLeft, v) <==> ScanRef(rules, Next(p), true, v))
  {
    assert WellFormedRule(rules[p.rule], |rules|);
    if Elem(rules, p).kind == Alt {
      AlternateIsPlace(rules, p.rule, p.at + 1);
      if ScanRef(rules, p, inLeft, v) {
        var a: nat :| p.at < a && StartsAlternate(rules[p.rule], a) && LeftRef(rules, Pos(p.rule, a), v);
        assert a == p.at + 1 || Next(p).at < a;
      }
    }
  }

  lemma ScanRefAtSymbol(rules: Rules, p: Pos, inLeft: bool, v: nat, q: Pos)
    requires WellFormed(rules) && IsPlace(rules, p) && !IsEnd(Elem(rules, p))
    requires q == if OpensSet(Elem(rules, p)) then PastSet(rules, p) else Next(p)
    ensures IsPlace(rules, q) && p.at < q.at
    ensures Elem(rules, p).kind == RuleRef ==> Elem(rules, p).value < |rules|
    ensures var isRef := Elem(rules, p).kind == RuleRef;
      ScanRef(rules, p, inLeft, v) <==>
        (isRef && inLeft && Elem(rules, p).value == v)
        || ScanRef(rules, q, isRef && inLeft && Nullable(rules, Elem(rules, p).value), v)
  {
    PlaceAfter(rules, p);
    var r := rules[p.rule];
    assert WellFormedRule(r, |rules|);
    forall a: nat | p.at < a && StartsAlternate(r, a) ensures q.at < a {
      if a <= q.at && OpensSet(r[p.at]) {
        NoAlternateInSet(r, p.at, |rules|, a);
      }
    }
  }

  method LeftRefsOf(rules: Rules, nullable: seq<bool>, id: nat) returns (refs: seq<nat>)
    requires WellFormed(rules) && MarksNullable(rules, nullable) && id < |rules|
    ensures forall v: nat :: v in refs <==> Edge(rules, id, v)
    ensures forall j :: 0 <= j < |refs| ==> refs[j] < |rules|
  {
    refs := [];
    var p := Pos(id, 0);
    var inLeft := true;
    AlternateIsPlace(rules, id, 0);
    while true
      invariant IsPlace(rules, p) && p.rule == id
      invariant forall v: nat :: Edge(rules, id, v) <==> v in refs || ScanRef(rules, p, inLeft, v)
      invariant forall j :: 0 <= j < |refs| ==> refs[j] < |rules|
      decreases |rules[id]| - p.at
    {
      var e := Elem(rules, p);
      if e.kind == End || e.kind == Alt {
        ScanRefAtEnd(rules, p, inLeft, 0);
        forall v: nat { ScanRefAtEnd(rules, p, inLeft, v); }
        if e.kind == End {
          break;
        }
        p := Next(p);
        inLeft := true;
      } else if e.kind == RuleRef {
        ScanRefAtSymbol(rules, p, inLeft, 0, Next(p));
        forall v: nat { ScanRefAtSymbol(rules, p, inLeft, v, Next(p)); }
        if inLeft {
          refs := refs + [e.value];
          inLeft := nullable[e.value];
        }
        p := Next(p);
      } else {
        assert WellFormedRule(rules[id], |rules|);
        ScanRefAtSymbol(rules, p, inLeft, 0, PastSet(rules, p));
        forall v: nat { ScanRefAtSymbol(rules, p, inLeft, v, PastSet(rules, p)); }
        var next := SkipSymbol(rules[id], p.at, |rules|);
        inLeft := false;
        p := Pos(id, next);
      }
    }
  }

  method LeftGraph(rules: Rules, nullable: seq<bool>) returns (edges: Graph)
    requires WellFormed(rules) && MarksNullable(rules, nullable)
    ensures IsLeftGraph(rules, edges) && InGraph(edges)
  {
    edges := [];
    for id := 0 to |rules|
      invariant |edges| == id
      invariant forall u, v :: 0 <= u < id && 0 <= v ==> (v in edges[u] <==> Edge(rules, u, v))
      invariant forall u, j :: 0 <= u < id && 0 <= j < |edges[u]| ==> edges[u][j] < |rules|
    {
      var refs := LeftRefsOf(rules, nullable, id);
      edges := edges + [refs];
    }
  }

  // ---- depth-first search -------------------------------------------------------------------

  datatype Color = White | Gray | Black

  /** The state of the search. `rank` counts the finished nodes before each finished node. */
  ghost predicate Searching(edges: Graph, color: seq<Color>, next: seq<nat>, stack: seq<nat>, rank: seq<nat>, finished: nat) {
    && |color| == |next| == |rank| == |edges|
    && (forall u :: 0 <= u < |edges| ==> next[u] <= |edges[u]|)
    && (forall u :: 0 <= u < |edges| && color[u] == White ==> next[u] == 0)
    && (forall u :: 0 <= u < |edges| && color[u] == Black ==> rank[u] < finished && next[u] == |edges[u]|)
    && OpenPath(edges, color, stack)
    && (forall u, j :: 0 <= u < |edges| && 0 <= j < next[u] ==> Settled(edges, color, stack, rank, u, j))
  }

  /** The stack is a path, without repetition, over exactly the gray nodes. */
  ghost predicate OpenPath(edges: Graph, color: seq<Color>, stack: seq<nat>) {
    && |color| == |edges|
    && (forall i :: 0 <= i < |stack| ==> stack[i] < |edges| && color[stack[i]] == Gray)
    && (forall u :: 0 <= u < |edges| && color[u] == Gray ==> u in stack)
    && (forall i, j :: 0 <= i < j < |stack| ==> stack[i] != stack[j])
    && (forall i :: 0 <= i < |stack| - 1 ==> stack[i + 1] in edges[stack[i]])
  }

  ghost predicate Above(stack: seq<nat>, u: nat, v: nat) {
    exists i :: 0 <= i < |stack| - 1 && stack[i] == u && stack[i + 1] == v
  }

  /** Edge `j` of `u`, already followed, leads to a finished node, of smaller rank if `u` is finished
      too, or to the node above `u` on the stack. */
  ghost predicate Settled(edges: Graph, color: seq<Color>, stack: seq<nat>, rank: seq<nat>, u: nat, j: nat)
    requires |color| == |rank| == |edges|
  {
    && u < |edges| && j < |edges[u]| && edges[u][j] < |edges|
    && var v := edges[u][j];
       || (color[v] == Black && (color[u] == Black ==> rank[v] < rank[u]))
       || (color[u] == Gray && Above(stack, u, v))
  }

  function Remaining(edges: Graph, next: seq<nat>): int
    requires |next| == |edges|
  {
    if edges == [] then 0 else |edges[0]| - next[0] + Remaining(edges[1..], next[1..])
  }

  lemma {:induction false} RemainingStep(edges: Graph, next: seq<nat>, u: nat)
    requires |next| == |edges| && u < |edges|
    ensures Remaining(edges, next[u := next[u] + 1]) == Remaining(edges, next) - 1
  {
    if u > 0 {
      RemainingStep(edges[1..], next[1..], u - 1);
      assert next[u := next[u] + 1][1..] == next[1..][u - 1 := next[u] + 1];
    } else {
      assert next[u := next[u] + 1][1..] == next[1..];
    }
  }

  lemma {:induction false} RemainingBound(edges: Graph, next: seq<nat>)
    requires |next| == |edges| && forall u :: 0 <= u < |edges| ==> next[u] <= |edges[u]|
    ensures Remaining(edges, next) >= 0
  {
    if edges != [] {
      RemainingBound(edges[1..], next[1..]);
    }
  }

  lemma StartNode(edges: Graph, color: seq<Color>, next: seq<nat>, rank: seq<nat>, finished: nat, s: nat)
    requires Searching(edges, color, next, [], rank, finished) && s < |edges| && color[s] == White
    ensures Searching(edges, color[s := Gray], next, [s], rank, finished)
  {
    var color', stack := color[s := Gray], [s];
    forall u, j | 0 <= u < |edges| && 0 <= j < next[u] ensures Settled(edges, color', stack, rank, u, j) {
      assert Settled(edges, color, [], rank, u, j);
    }
  }

  /** The edges of the top node that have been followed all lead to finished nodes. */
  lemma TopIsSettled(edges: Graph, color: seq<Color>, next: seq<nat>, stack: seq<nat>, rank: seq<nat>, finished: nat, j: nat)
    requires stack != [] && Searching(edges, color, next, stack, rank, finished)
    requires j < next[stack[|stack| - 1]]
    ensures var u := stack[|stack| - 1];
      edges[u][j] < |edges| && color[edges[u][j]] == Black && rank[edges[u][j]] < finished
  {
    assert Settled(edges, color, stack, rank, stack[|stack| - 1], j);
  }

  /** Descending along the next edge of the top node. */
  lemma Descend(edges: Graph, color: seq<Color>, next: seq<nat>, stack: seq<nat>, rank: seq<nat>, finished: nat,
                u: nat, v: nat)
    requires InGraph(edges) && stack != [] && Searching(edges, color, next, stack, rank, finished)
    requires u == stack[|stack| - 1] && next[u] < |edges[u]| && v == edges[u][next[u]] && color[v] == White
    ensures Searching(edges, color[v := Gray], next[u := next[u] + 1], stack + [v], rank, finished)
  {
    var color', next', stack' := color[v := Gray], next[u := next[u] + 1], stack + [v];
    assert OpenPath(edges, color', stack');
    assert stack'[|stack| - 1] == u && stack'[|stack|] == v;
    assert Above(stack', u, v);
    forall w, j | 0 <= w < |edges| && 0 <= j < next'[w] ensures Settled(edges, color', stack', rank, w, j) {
      if j < next[w] {
        assert Settled(edges, color, stack, rank, w, j);
        AboveStays(stack, v, w, edges[w][j]);
      }
    }
  }

  lemma AboveStays(stack: seq<nat>, top: nat, u: nat, v: nat)
    ensures Above(stack, u, v) ==> Above(stack + [top], u, v)
  {
    if Above(stack, u, v) {
      var i :| 0 <= i < |stack| - 1 && stack[i] == u && stack[i + 1] == v;
      assert (stack + [top])[i] == u && (stack + [top])[i + 1] == v;
    }
  }

  /** Following an edge of the top node to a finished node. */
  lemma SkipFinished(edges: Graph, color: seq<Color>, next: seq<nat>, stack: seq<nat>, rank: seq<nat>, finished: nat, u: nat)
    requires InGraph(edges) && stack != [] && Searching(edges, color, next, stack, rank, finished)
    requires u == stack[|stack| - 1] && next[u] < |edges[u]| && color[edges[u][next[u]]] == Black
    ensures Searching(edges, color, next[u := next[u] + 1], stack, rank, finished)
  {
    forall w, j | 0 <= w < |edges| && 0 <= j < next[u := next[u] + 1][w] ensures Settled(edges, color, stack, rank, w, j) {
      if j < next[w] {
        assert Settled(edges, color, stack, rank, w, j);
      }
    }
  }

  /** Finishing the top node gives it the next rank. */
  lemma Finish(edges: Graph, color: seq<Color>, next: seq<nat>, stack: seq<nat>, rank: seq<nat>, finished: nat, u: nat)
    requires InGraph(edges) && stack != [] && Searching(edges, color, next, stack, rank, finished)
    requires u == stack[|stack| - 1] && next[u] == |edges[u]|
    ensures Searching(edges, color[u := Black], next, stack[..|stack| - 1], rank[u := finished], finished + 1)
  {
    var color', stack', rank' := color[u := Black], stack[..|stack| - 1], rank[u := finished];
    assert OpenPath(edges, color', stack');
    forall w, j | 0 <= w < |edges| && 0 <= j < next[w] ensures Settled(edges, color', stack', rank', w, j) {
      assert Settled(edges, color, stack, rank, w, j);
      if w == u {
        TopIsSettled(edges, color, next, stack, rank, finished, j);
      } else if color[w] == Gray && edges[w][j] != u && Above(stack, w, edges[w][j]) {
        var i :| 0 <= i < |stack| - 1 && stack[i] == w && stack[i + 1] == edges[w][j];
        assert stack'[i] == w && stack'[i + 1] == edges[w][j];
      }
    }
  }

  /** An edge of the top node to an open node closes a cycle. */
  lemma BackEdge(edges: Graph, color: seq<Color>, stack: seq<nat>, v: nat)
    requires stack != [] && OpenPath(edges, color, stack)
    requires v < |edges| && color[v] == Gray && v in edges[stack[|stack| - 1]]
    ensures OnCycle(edges, v)
  {
    var i :| 0 <= i < |stack| && stack[i] == v;
    var path := stack[i..] + [v];
    forall k | 0 <= k < |path| - 1 ensures path[k + 1] in edges[path[k]] {
      if k < |stack| - i - 1 {
        assert path[k] == stack[i + k] && path[k + 1] == stack[i + k + 1];
      }
    }
    assert IsPath(edges, path);
  }

  lemma AllFinished(edges: Graph, color: seq<Color>, next: seq<nat>, rank: seq<nat>, finished: nat)
    requires Searching(edges, color, next, [], rank, finished)
    requires forall u :: 0 <= u < |edges| ==> color[u] != White
    ensures Ranks(edges, rank)
  {
    forall u, j | 0 <= u < |edges| && 0 <= j < |edges[u]| ensures edges[u][j] < |edges| && rank[edges[u][j]] < rank[u] {
      assert color[u] == Black;
      assert Settled(edges, color, [], rank, u, j);
    }
  }

  /** Iterative depth-first search for a back edge. Gives a node of a cycle, or a ranking. */
  method FindCycle(edges: Graph) returns (r: Option<nat>, ghost rank: seq<nat>)
    requires InGraph(edges)
    ensures r.Some? ==> OnCycle(edges, r.value) && r.value < |edges|
    ensures r.None? ==> Ranks(edges, rank)
  {
    hide Searching;
    var n := |edges|;
    var color := seq(n, _ => White);
    var next: seq<nat> := seq(n, _ => 0);
    var stack: seq<nat> := [];
    rank := seq(n, _ => 0);
    ghost var finished := 0;
    assert Searching(edges, color, next, stack, rank, finished) by {
      NothingVisited(edges);
    }
    for start := 0 to n
      invariant stack == [] && Searching(edges, color, next, stack, rank, finished)
      invariant |color| == |next| == n
      invariant forall u :: 0 <= u < start ==> color[u] != White
    {
      if color[start] != White {
        continue;
      }
      StartNode(edges, color, next, rank, finished, start);
      SearchingShape(edges, color, next, stack, rank, finished);
      color := color[start := Gray];
      assert next[start := 0] == next;
      next := next[start := 0];
      stack := [start];
      while stack != []
        invariant Searching(edges, color, next, stack, rank, finished)
        invariant |color| == |next| == n
        invariant forall u :: 0 <= u <= start ==> color[u] != White
        decreases Remaining(edges, next), |stack|
      {
        SearchingShape(edges, color, next, stack, rank, finished);
        RemainingBound(edges, next);
        var u := stack[|stack| - 1];
        if next[u] < |edges[u]| {
          var v := edges[u][next[u]];
          RemainingStep(edges, next, u);
          if color[v] == White {
            Descend(edges, color, next, stack, rank, finished, u, v);
            next := next[u := next[u] + 1];
            color := color[v := Gray];
            assert next[v := 0] == next;
            next := next[v := 0];
            stack := stack + [v];
          } else if color[v] == Gray {
            BackEdge(edges, color, stack, v);
            return Some(v), rank;
          } else {
            SkipFinished(edges, color, next, stack, rank, finished, u);
            next := next[u := next[u] + 1];
          }
        } else {
          Finish(edges, color, next, stack, rank, finished, u);
          color := color[u := Black];
          rank := rank[u := finished];
          finished := finished + 1;
          stack := stack[..|stack| - 1];
        }
      }
    }
    AllFinished(edges, color, next, rank, finished);
    r := None;
  }

  lemma NothingVisited(edges: Graph)
    ensures Searching(edges, seq(|edges|, _ => White), seq(|edges|, _ => 0), [], seq(|edges|, _ => 0), 0)
  {
  }

  lemma SearchingShape(edges: Graph, color: seq<Color>, next: seq<nat>, stack: seq<nat>, rank: seq<nat>, finished: nat)
    requires Searching(edges, color, next, stack, rank, finished)
    ensures |color| == |next| == |rank| == |edges| && OpenPath(edges, color, stack)
    ensures forall u :: 0 <= u < |edges| ==> next[u] <= |edges[u]| && (color[u] == White ==> next[u] == 0)
  {
  }

  // ---- the rule that is reported --------------------------------------------------------------

  /** Each rule of the path left-refers to the next. */
  ghost predicate LeftPath(rules: Rules, path: seq<nat>) {
    |path| > 1 && forall i :: 0 <= i < |path| - 1 ==> Edge(rules, path[i], path[i + 1])
  }

  /** Rule `id` reaches itself through left references. */
  ghost predicate LeftRecursive(rules: Rules, id: nat) {
    exists path :: LeftPath(rules, path) && path[0] == id == path[|path| - 1]
  }

  /** Left references lead to smaller ranks. */
  ghost predicate LeftRanks(rules: Rules, rank: seq<nat>) {
    |rank| == |rules| && forall u: nat, v: nat :: Edge(rules, u, v) ==> v < |rules| && rank[v] < rank[u]
  }

  lemma CycleIsLeftRecursion(rules: Rules, edges: Graph, id: nat)
    requires IsLeftGraph(rules, edges) && InGraph(edges)
    ensures OnCycle(edges, id) <==> LeftRecursive(rules, id)
  {
    if OnCycle(edges, id) {
      var path :| IsPath(edges, path) && |path| > 1 && path[0] == id == path[|path| - 1];
      assert LeftPath(rules, path);
    }
    if LeftRecursive(rules, id) {
      var path :| LeftPath(rules, path) && path[0] == id == path[|path| - 1];
      forall i | 0 <= i < |path| - 1 ensures path[i] < |edges| && path[i + 1] in edges[path[i]] {
        assert Edge(rules, path[i], path[i + 1]);
      }
      forall i | 0 <= i < |path| ensures path[i] < |edges| {
        if i > 0 {
          assert path[i - 1 + 1] in edges[path[i - 1]];
        }
      }
      assert IsPath(edges, path);
    }
  }

  /** Reports a left-recursive rule exactly if there is one. */
  method LeftRecursiveRule(rules: Rules, nullable: seq<bool>) returns (r: Option<nat>, ghost rank: seq<nat>)
    requires WellFormed(rules) && MarksNullable(rules, nullable)
    ensures r.Some? ==> r.value < |rules| && LeftRecursive(rules, r.value)
    ensures r.None? ==> (forall id: nat :: !LeftRecursive(rules, id)) && LeftRanks(rules, rank)
  {
    var edges := LeftGraph(rules, nullable);
    r, rank := FindCycle(edges);
    if r.Some? {
      CycleIsLeftRecursion(rules, edges, r.value);
    } else {
      forall id: nat ensures !LeftRecursive(rules, id) {
        CycleIsLeftRecursion(rules, edges, id);
        RankedHasNoCycle(edges, rank, id);
      }
      forall u: nat, v: nat | Edge(rules, u, v) ensures v < |rules| && rank[v] < rank[u] {
        assert v in edges[u];
      }
    }
  }

  // ---- what left recursion is -----------------------------------------------------------------------

  /** A place refers to a rule from the left if only references to rules that derive the empty word stand before. */
  lemma {:induction false} LeftRefIs(rules: Rules, u: nat, i: nat, v: nat)
    requires u < |rules|
    ensures LeftRef(rules, Pos(u, i), v) <==> exists j :: (
      && i <= j < |rules[u]| && rules[u][j] == Element(RuleRef, v)
      && forall k :: i <= k < j ==>
          rules[u][k].kind == RuleRef && rules[u][k].value < |rules| && RuleDerives(rules, rules[u][k].value, []))
    decreases |rules[u]| - i
  {
    if i < |rules[u]| {
      LeftRefIs(rules, u, i + 1, v);
    }
  }

  lemma EdgeIs(rules: Rules, u: nat, v: nat)
    requires u < |rules|
    ensures Edge(rules, u, v) <==> exists a: nat :: (
      a < |rules[u]| && (a == 0 || rules[u][a - 1].kind == Alt) && LeftRef(rules, Pos(u, a), v))
  {
    if a: nat :| a < |rules[u]| && (a == 0 || rules[u][a - 1].kind == Alt) && LeftRef(rules, Pos(u, a), v) {
      assert StartsAlternate(rules[u], a);
    }
  }

  /** A left-recursive rule refers to itself from the left over one or more references. */
  lemma LeftRecursiveIs(rules: Rules, id: nat)
    ensures LeftRecursive(rules, id) <==> exists path: seq<nat> :: (
      && |path| > 1 && path[0] == id == path[|path| - 1] && forall i :: 0 <= i < |path| - 1 ==> Edge(rules, path[i], path[i + 1]))
  {
    if path: seq<nat> :| |path| > 1 && path[0] == id == path[|path| - 1]
                         && forall i :: 0 <= i < |path| - 1 ==> Edge(rules, path[i], path[i + 1]) {
      assert LeftPath(rules, path);
    }
  }
}
