/** Byte-pair merging as the tokenizer does it: a linked list of symbols over the word and a queue of
    candidate merges from which nothing is ever removed but by popping. */
module BpeHeap {
  import opened Arith
  import opened Results
  import opened BpeGreedy

  /** A piece of the word and its neighbours in the list; `n == 0` marks one that was absorbed. */
  datatype Symbol = Symbol(prev: int, next: int, start: nat, n: nat)

  /** A candidate merge, with the text of both sides when it was queued. */
  datatype Bigram = Bigram(left: nat, right: nat, rank: int, text: Text)

  // ---- the list ---------------------------------------------------------------------------------

  function TextOf(word: Text, s: Symbol): Text {
    if s.start + s.n <= |word| then word[s.start..s.start + s.n] else []
  }

  function PrevIn(chain: seq<nat>, k: nat): int {
    if 0 < k <= |chain| then chain[k - 1] else -1
  }

  function NextIn(chain: seq<nat>, k: nat): int {
    if k + 1 < |chain| then chain[k + 1] else -1
  }

  /** A live symbol at its place in the chain: its neighbours, and where the next one starts. */
  predicate LinkOk(word: Text, syms: seq<Symbol>, chain: seq<nat>, k: nat)
    requires k < |chain|
  {
    && chain[k] < |syms|
    && var s := syms[chain[k]];
    && s.n > 0 && s.start + s.n <= |word|
    && s.prev == PrevIn(chain, k) && s.next == NextIn(chain, k)
    && (k + 1 < |chain| ==> chain[k] < chain[k + 1] < |syms| && syms[chain[k + 1]].start == s.start + s.n)
  }

  /** `chain` lists the live symbols from left to right. */
  ghost predicate Linked(word: Text, syms: seq<Symbol>, chain: seq<nat>) {
    && (forall k: nat :: k < |chain| ==> LinkOk(word, syms, chain, k))
    && (forall i: nat :: i < |syms| && syms[i].n > 0 ==> i in chain)
  }

  function Pieces(word: Text, syms: seq<Symbol>, chain: seq<nat>): (r: seq<Text>)
    ensures |r| == |chain|
  {
    seq(|chain|, k requires 0 <= k < |chain| => if chain[k] < |syms| then TextOf(word, syms[chain[k]]) else [])
  }

  lemma {:induction false} ChainGrows(word: Text, syms: seq<Symbol>, chain: seq<nat>, j: nat, k: nat)
    requires Linked(word, syms, chain) && j < k < |chain|
    ensures chain[j] < chain[k]
    decreases k
  {
    assert LinkOk(word, syms, chain, k - 1);
    if j < k - 1 {
      ChainGrows(word, syms, chain, j, k - 1);
    }
  }

  lemma PlaceIsUnique(word: Text, syms: seq<Symbol>, chain: seq<nat>, j: nat, k: nat)
    requires Linked(word, syms, chain) && j < |chain| && k < |chain| && chain[j] == chain[k]
    ensures j == k
  {
    if j < k {
      ChainGrows(word, syms, chain, j, k);
    } else if k < j {
      ChainGrows(word, syms, chain, k, j);
    }
  }

  /** The list when `left` has absorbed its right neighbour. */
  function Merged(syms: seq<Symbol>, left: nat, right: nat): (r: seq<Symbol>)
    requires left < |syms| && right < |syms| && syms[right].next < |syms|
    ensures |r| == |syms|
  {
    var ls, rs := syms[left], syms[right];
    var joined := syms[left := ls.(n := ls.n + rs.n, next := rs.next)][right := rs.(n := 0)];
    if rs.next >= 0 then joined[rs.next := joined[rs.next].(prev := left)] else joined
  }

  /** The places a merge touches: the two symbols and the one after them. */
  lemma MergedSymbols(word: Text, syms: seq<Symbol>, chain: seq<nat>, k: nat)
    requires Linked(word, syms, chain) && k + 1 < |chain|
    requires chain[k] < |syms| && chain[k + 1] < |syms| && syms[chain[k + 1]].next < |syms|
    ensures var m := Merged(syms, chain[k], chain[k + 1]);
      && m[chain[k]] == syms[chain[k]].(n := syms[chain[k]].n + syms[chain[k + 1]].n, next := NextIn(chain, k + 1))
      && m[chain[k + 1]].n == 0
      && (k + 2 < |chain| ==> chain[k + 2] < |syms| && m[chain[k + 2]] == syms[chain[k + 2]].(prev := chain[k]))
      && (forall i: nat :: i < |syms| && i != chain[k] && i != chain[k + 1] && i != NextIn(chain, k + 1) ==> m[i] == syms[i])
  {
    assert LinkOk(word, syms, chain, k) && LinkOk(word, syms, chain, k + 1);
    ChainGrows(word, syms, chain, k, k + 1);
    if k + 2 < |chain| {
      ChainGrows(word, syms, chain, k + 1, k + 2);
    }
  }

  /** Which places of the chain differ from the two merged and the one after them. */
  lemma ChainApart(word: Text, syms: seq<Symbol>, chain: seq<nat>, k: nat, j: nat)
    requires Linked(word, syms, chain) && k + 1 < |chain| && j < |chain|
    ensures j != k ==> chain[j] != chain[k]
    ensures j != k + 1 ==> chain[j] != chain[k + 1]
    ensures j != k + 2 ==> chain[j] != NextIn(chain, k + 1)
  {
    hide LinkOk;
    if chain[j] == chain[k] {
      PlaceIsUnique(word, syms, chain, j, k);
    }
    if chain[j] == chain[k + 1] {
      PlaceIsUnique(word, syms, chain, j, k + 1);
    }
    if k + 2 < |chain| && chain[j] == chain[k + 2] {
      PlaceIsUnique(word, syms, chain, j, k + 2);
    }
  }

  /** The symbol at place j of the chain after the merge of the pair at k. */
  function MergedAt(syms: seq<Symbol>, chain: seq<nat>, k: nat, j: nat): Symbol
    requires k + 1 < |chain| && j < |chain| && chain[j] < |syms| && chain[k + 1] < |syms|
  {
    var s := syms[chain[j]];
    if j == k then s.(n := s.n + syms[chain[k + 1]].n, next := NextIn(chain, k + 1))
    else if j == k + 2 then s.(prev := chain[k])
    else s
  }

  lemma MergedSymbolAt(word: Text, syms: seq<Symbol>, chain: seq<nat>, k: nat, j: nat)
    requires Linked(word, syms, chain) && k + 1 < |chain| && j < |chain| && j != k + 1
    requires chain[k] < |syms| && chain[k + 1] < |syms| && syms[chain[k + 1]].next < |syms| && chain[j] < |syms|
    ensures Merged(syms, chain[k], chain[k + 1])[chain[j]] == MergedAt(syms, chain, k, j)
  {
    hide Linked;
    MergedSymbols(word, syms, chain, k);
    ChainApart(word, syms, chain, k, j);
    hide Merged;
  }

  lemma MergedLinkOk(word: Text, syms: seq<Symbol>, chain: seq<nat>, k: nat, j: nat)
    requires Linked(word, syms, chain) && k + 1 < |chain| && j < |chain| - 1
    requires chain[k] < |syms| && chain[k + 1] < |syms| && syms[chain[k + 1]].next < |syms|
    ensures LinkOk(word, Merged(syms, chain[k], chain[k + 1]), RemoveAt(chain, k + 1), j)
    ensures TextOf(word, Merged(syms, chain[k], chain[k + 1])[RemoveAt(chain, k + 1)[j]])
         == if j < k then TextOf(word, syms[chain[j]])
            else if j == k then TextOf(word, syms[chain[k]]) + TextOf(word, syms[chain[k + 1]])
            else TextOf(word, syms[chain[j + 1]])
  {
    hide Merged;
    var i := if j <= k then j else j + 1;
    var next := if j == k then k + 2 else i + 1;
    RestAt(chain, k, j);
    MergedPiece(word, syms, chain, k, i);
    if next < |chain| {
      ChainInRange(word, syms, chain);
      MergedSymbolAt(word, syms, chain, k, next);
      NextPieceStarts(word, syms, chain, k, i, next);
      RestAt(chain, k, j + 1);
    }
    hide Linked;
    hide RemoveAt;
  }

  /** The chain without place k + 1. */
  lemma RestAt(chain: seq<nat>, k: nat, j: nat)
    requires k + 1 < |chain| && j < |chain| - 1
    ensures var rest, i := RemoveAt(chain, k + 1), if j <= k then j else j + 1;
      && rest[j] == chain[i]
      && PrevIn(rest, j) == (if i == k + 2 then chain[k] else PrevIn(chain, i))
      && NextIn(rest, j) == (if i == k then NextIn(chain, k + 1) else NextIn(chain, i))
  {
  }

  lemma MergedPiece(word: Text, syms: seq<Symbol>, chain: seq<nat>, k: nat, i: nat)
    requires Linked(word, syms, chain) && k + 1 < |chain| && i < |chain| && i != k + 1
    requires chain[k] < |syms| && chain[k + 1] < |syms| && syms[chain[k + 1]].next < |syms|
    ensures chain[i] < |syms|
    ensures var s := Merged(syms, chain[k], chain[k + 1])[chain[i]];
      && s == MergedAt(syms, chain, k, i)
      && s.n > 0 && s.start + s.n <= |word|
      && s.prev == (if i == k + 2 then chain[k] else PrevIn(chain, i))
      && s.next == (if i == k then NextIn(chain, k + 1) else NextIn(chain, i))
      && TextOf(word, s) == if i == k then TextOf(word, syms[chain[k]]) + TextOf(word, syms[chain[k + 1]])
                            else TextOf(word, syms[chain[i]])
  {
    hide Merged;
    assert LinkOk(word, syms, chain, i) && LinkOk(word, syms, chain, k + 1);
    MergedSymbolAt(word, syms, chain, k, i);
    hide Linked;
  }

  lemma NextPieceStarts(word: Text, syms: seq<Symbol>, chain: seq<nat>, k: nat, i: nat, next: nat)
    requires Linked(word, syms, chain) && k + 1 < |chain| && i < |chain| && i != k + 1
    requires next == (if i == k then k + 2 else i + 1) < |chain| && next != k + 1
    ensures chain[i] < |syms| && chain[next] < |syms| && chain[k + 1] < |syms| && chain[i] < chain[next]
    ensures var s := MergedAt(syms, chain, k, i); MergedAt(syms, chain, k, next).start == s.start + s.n
  {
    assert LinkOk(word, syms, chain, i) && LinkOk(word, syms, chain, k + 1);
    ChainGrows(word, syms, chain, i, next);
    if i == k {
      assert LinkOk(word, syms, chain, k + 2);
    }
    hide Linked;
  }

  /** Absorbing a neighbour merges two pieces and leaves the list linked. */
  lemma MergedLinks(word: Text, syms: seq<Symbol>, chain: seq<nat>, k: nat)
    requires Linked(word, syms, chain) && k + 1 < |chain|
    requires chain[k] < |syms| && chain[k + 1] < |syms| && syms[chain[k + 1]].next < |syms|
    ensures var m, rest := Merged(syms, chain[k], chain[k + 1]), RemoveAt(chain, k + 1);
      && Linked(word, m, rest)
      && Pieces(word, m, rest) == MergeAt(Pieces(word, syms, chain), k)
  {
    hide Merged;
    hide LinkOk;
    hide TextOf;
    var m, rest := Merged(syms, chain[k], chain[k + 1]), RemoveAt(chain, k + 1);
    forall j: nat | j < |rest|
      ensures LinkOk(word, m, rest, j) && rest[j] < |m|
      ensures TextOf(word, m[rest[j]]) == MergeAt(Pieces(word, syms, chain), k)[j]
    {
      ChainInRange(word, syms, chain);
      MergedLinkOk(word, syms, chain, k, j);
      ChainInRangeAt(word, m, rest, j);
    }
    MergedSymbols(word, syms, chain, k);
    forall i: nat | i < |m| && m[i].n > 0 ensures i in rest {
      LiveStaysInChain(word, syms, chain, k, i);
    }
  }

  lemma ChainInRangeAt(word: Text, syms: seq<Symbol>, chain: seq<nat>, k: nat)
    requires k < |chain| && LinkOk(word, syms, chain, k)
    ensures chain[k] < |syms|
  {
  }

  lemma ChainInRange(word: Text, syms: seq<Symbol>, chain: seq<nat>)
    requires Linked(word, syms, chain)
    ensures forall k: nat :: k < |chain| ==> chain[k] < |syms| && syms[chain[k]].next < |syms|
  {
    forall k: nat | k < |chain| ensures chain[k] < |syms| && syms[chain[k]].next < |syms| {
      assert LinkOk(word, syms, chain, k);
      if k + 1 < |chain| {
        assert LinkOk(word, syms, chain, k + 1);
      }
    }
  }

  lemma LiveStaysInChain(word: Text, syms: seq<Symbol>, chain: seq<nat>, k: nat, i: nat)
    requires Linked(word, syms, chain) && k + 1 < |chain| && i < |syms|
    requires chain[k] < |syms| && chain[k + 1] < |syms| && syms[chain[k + 1]].next < |syms|
    requires Merged(syms, chain[k], chain[k + 1])[i].n > 0
    ensures i in RemoveAt(chain, k + 1)
  {
    hide Merged;
    MergedSymbols(word, syms, chain, k);
    var rest := RemoveAt(chain, k + 1);
    assert i != chain[k + 1];
    if k + 2 < |chain| && i == chain[k + 2] {
      assert rest[k + 1] == i;
    } else if i == chain[k] {
      assert rest[k] == i;
    } else {
      assert syms[i].n > 0;
      var j: nat :| j < |chain| && chain[j] == i;
      if j < k + 1 {
        assert rest[j] == i;
      } else {
        assert rest[j - 1] == i;
      }
    }
  }

  // ---- the queue --------------------------------------------------------------------------------

  predicate Alive(syms: seq<Symbol>, i: nat) {
    i < |syms| && syms[i].n > 0
  }

  function Joined(word: Text, syms: seq<Symbol>, e: Bigram): Text
    requires e.left < |syms| && e.right < |syms|
  {
    TextOf(word, syms[e.left]) + TextOf(word, syms[e.right])
  }

  /** A queued pair of live symbols is still a pair of neighbours, and its text is the current one
      exactly when neither side has grown since. */
  predicate EntryOk(word: Text, syms: seq<Symbol>, ranks: Ranks, e: Bigram) {
    && e.left < |syms| && e.right < |syms|
    && (Alive(syms, e.left) && Alive(syms, e.right) ==>
          && syms[e.left].next == e.right
          && |e.text| <= |Joined(word, syms, e)|
          && (e.text == Joined(word, syms, e) ==>
                && (TextOf(word, syms[e.left]), TextOf(word, syms[e.right])) in ranks
                && e.rank == ranks[(TextOf(word, syms[e.left]), TextOf(word, syms[e.right]))]))
  }

  /** The queue entry of the pair at k, as it would be made now. */
  function EntryFor(pieces: seq<Text>, chain: seq<nat>, ranks: Ranks, k: nat): Bigram
    requires |pieces| == |chain| && Ranked(pieces, ranks, k)
  {
    Bigram(chain[k], chain[k + 1], RankAt(pieces, ranks, k), pieces[k] + pieces[k + 1])
  }

  /** Every ranked pair of neighbours has its up-to-date entry in the queue. */
  ghost predicate Complete(pieces: seq<Text>, chain: seq<nat>, ranks: Ranks, queue: seq<Bigram>)
    requires |pieces| == |chain|
  {
    forall k: nat :: Ranked(pieces, ranks, k) ==> EntryFor(pieces, chain, ranks, k) in queue
  }

  ghost predicate QueueOk(word: Text, syms: seq<Symbol>, ranks: Ranks, queue: seq<Bigram>) {
    forall e :: e in queue ==> EntryOk(word, syms, ranks, e)
  }

  /** The entry does not come out of the queue after the other. */
  predicate Before(a: Bigram, b: Bigram) {
    a.rank < b.rank || (a.rank == b.rank && a.left <= b.left)
  }

  lemma MergedEntryOk(word: Text, syms: seq<Symbol>, chain: seq<nat>, k: nat, ranks: Ranks, e: Bigram)
    requires Linked(word, syms, chain) && k + 1 < |chain|
    requires chain[k] < |syms| && chain[k + 1] < |syms| && syms[chain[k + 1]].next < |syms|
    requires EntryOk(word, syms, ranks, e)
    ensures EntryOk(word, Merged(syms, chain[k], chain[k + 1]), ranks, e)
  {
    hide Merged;
    var m := Merged(syms, chain[k], chain[k + 1]);
    MergedSymbols(word, syms, chain, k);
    assert LinkOk(word, syms, chain, k) && LinkOk(word, syms, chain, k + 1);
    if Alive(m, e.left) && Alive(m, e.right) {
      if k + 2 < |chain| {
        assert LinkOk(word, syms, chain, k + 2);
      }
      assert Alive(syms, e.left) && Alive(syms, e.right);
      assert e.left != chain[k];
      assert TextOf(word, m[e.left]) == TextOf(word, syms[e.left]);
      if e.right == chain[k] {
        assert |Joined(word, m, e)| > |Joined(word, syms, e)|;
      } else {
        assert TextOf(word, m[e.right]) == TextOf(word, syms[e.right]);
      }
    }
  }

  /** After a merge only the pairs on either side of the new piece need new entries. */
  lemma MergedComplete(pieces: seq<Text>, chain: seq<nat>, ranks: Ranks, queue: seq<Bigram>, k: nat, after: seq<Bigram>)
    requires |pieces| == |chain| && k + 1 < |chain|
    requires forall j: nat :: Ranked(pieces, ranks, j) && j != k ==> EntryFor(pieces, chain, ranks, j) in queue
    requires var ps, rest := MergeAt(pieces, k), RemoveAt(chain, k + 1);
      && (forall e :: e in queue ==> e in after)
      && (k > 0 && Ranked(ps, ranks, k - 1) ==> EntryFor(ps, rest, ranks, k - 1) in after)
      && (Ranked(ps, ranks, k) ==> EntryFor(ps, rest, ranks, k) in after)
    ensures Complete(MergeAt(pieces, k), RemoveAt(chain, k + 1), ranks, after)
  {
    var ps, rest := MergeAt(pieces, k), RemoveAt(chain, k + 1);
    forall j: nat | Ranked(ps, ranks, j) ensures EntryFor(ps, rest, ranks, j) in after {
      if j + 1 < k {
        assert Ranked(pieces, ranks, j) && EntryFor(ps, rest, ranks, j) == EntryFor(pieces, chain, ranks, j);
      } else if j > k {
        assert ps[j] == pieces[j + 1] && ps[j + 1] == pieces[j + 2];
        assert Ranked(pieces, ranks, j + 1) && EntryFor(ps, rest, ranks, j) == EntryFor(pieces, chain, ranks, j + 1);
      }
    }
  }

  /** The pair a fresh entry names is the best one when the entry is the first of the queue. */
  lemma TopIsBest(word: Text, syms: seq<Symbol>, chain: seq<nat>, ranks: Ranks, queue: seq<Bigram>, top: Bigram)
      returns (k: nat)
    requires Linked(word, syms, chain) && QueueOk(word, syms, ranks, queue)
    requires Complete(Pieces(word, syms, chain), chain, ranks, queue)
    requires top in queue && forall e :: e in queue ==> Before(top, e)
    requires Alive(syms, top.left) && Alive(syms, top.right) && top.text == Joined(word, syms, top)
    ensures k + 1 < |chain| && chain[k] == top.left && chain[k + 1] == top.right
    ensures IsBest(Pieces(word, syms, chain), ranks, k)
    ensures top == EntryFor(Pieces(word, syms, chain), chain, ranks, k)
  {
    hide TextOf;
    assert EntryOk(word, syms, ranks, top);
    k :| k < |chain| && chain[k] == top.left;
    assert LinkOk(word, syms, chain, k);
    var pieces := Pieces(word, syms, chain);
    assert pieces[k] == TextOf(word, syms[chain[k]]) && pieces[k + 1] == TextOf(word, syms[chain[k + 1]]);
    forall j: nat | Ranked(pieces, ranks, j) ensures Precedes(pieces, ranks, k, j) {
      assert Before(top, EntryFor(pieces, chain, ranks, j));
      if j < k {
        ChainGrows(word, syms, chain, j, k);
      }
    }
  }

  /** An entry that is not fresh is no pair's current one. */
  lemma StaleIsNotNeeded(word: Text, syms: seq<Symbol>, chain: seq<nat>, ranks: Ranks, queue: seq<Bigram>, at: nat)
    requires Linked(word, syms, chain) && at < |queue|
    requires Complete(Pieces(word, syms, chain), chain, ranks, queue)
    requires queue[at].left < |syms| && queue[at].right < |syms|
    requires !Alive(syms, queue[at].left) || !Alive(syms, queue[at].right)
             || queue[at].text != Joined(word, syms, queue[at])
    ensures Complete(Pieces(word, syms, chain), chain, ranks, RemoveAt(queue, at))
  {
    hide TextOf;
    var pieces := Pieces(word, syms, chain);
    forall k: nat | Ranked(pieces, ranks, k) ensures EntryFor(pieces, chain, ranks, k) in RemoveAt(queue, at) {
      var e := EntryFor(pieces, chain, ranks, k);
      assert LinkOk(word, syms, chain, k) && LinkOk(word, syms, chain, k + 1);
      StaysIn(queue, at, e);
    }
  }

  lemma StaysIn<T>(xs: seq<T>, at: nat, x: T)
    requires at < |xs| && x in xs && x != xs[at]
    ensures x in RemoveAt(xs, at)
  {
    var i :| 0 <= i < |xs| && xs[i] == x;
    if i < at {
      assert RemoveAt(xs, at)[i] == x;
    } else {
      assert RemoveAt(xs, at)[i - 1] == x;
    }
  }

  // ---- the algorithm ----------------------------------------------------------------------------

  /** Takes an entry that no other precedes. */
  method PopTop(queue: seq<Bigram>) returns (top: Bigram, rest: seq<Bigram>, ghost at: nat)
    requires queue != []
    ensures at < |queue| && top == queue[at] && rest == RemoveAt(queue, at)
    ensures forall e :: e in queue ==> Before(top, e)
  {
    var k := 0;
    for i := 1 to |queue|
      invariant 0 <= k < |queue|
      invariant forall j :: 0 <= j < i ==> Before(queue[k], queue[j])
    {
      if !Before(queue[k], queue[i]) {
        k := i;
      }
    }
    top, rest, at := queue[k], RemoveAt(queue, k), k;
  }

  /** Queues a pair if both sides exist and it is ranked. */
  method AddBigram(word: Text, syms: seq<Symbol>, ranks: Ranks, queue: seq<Bigram>, left: int, right: int)
      returns (r: seq<Bigram>)
    requires -1 <= left < |syms| && -1 <= right < |syms|
    ensures r == WithPair(word, syms, ranks, queue, left, right)
  {
    if left == -1 || right == -1 {
      return queue;
    }
    var l, t := TextOf(word, syms[left]), TextOf(word, syms[right]);
    if (l, t) !in ranks {
      return queue;
    }
    r := queue + [Bigram(left, right, ranks[(l, t)], l + t)];
  }

  /** Symbol k of a list under construction that has reached `offset`. */
  predicate FirstSymbol(word: Text, syms: seq<Symbol>, offset: nat, k: nat)
    requires k < |syms|
  {
    var s := syms[k];
    && s.n > 0 && s.start + s.n <= offset <= |word|
    && s.prev == k - 1
    && s.next == (if s.start + s.n < |word| then k + 1 else -1)
    && s.start + s.n == if k + 1 < |syms| then syms[k + 1].start else offset
  }

  function Identity(n: nat): (r: seq<nat>)
    ensures |r| == n && forall k :: 0 <= k < n ==> r[k] == k
  {
    seq(n, k requires 0 <= k < n => k)
  }

  lemma FirstSymbolsLinked(word: Text, syms: seq<Symbol>)
    requires FirstSymbols(word, syms, |word|)
    ensures Linked(word, syms, Identity(|syms|))
  {
    var chain := Identity(|syms|);
    forall k: nat | k < |chain| ensures LinkOk(word, syms, chain, k) {
      assert FirstSymbol(word, syms, |word|, k);
      if k + 1 < |syms| {
        assert FirstSymbol(word, syms, |word|, k + 1);
      }
    }
    forall i: nat | i < |syms| ensures i in chain {
      assert chain[i] == i;
    }
  }

  ghost predicate FirstSymbols(word: Text, syms: seq<Symbol>, offset: nat) {
    forall k: nat :: k < |syms| ==> FirstSymbol(word, syms, offset, k)
  }

  lemma FirstSymbolAdded(word: Text, syms: seq<Symbol>, offset: nat, s: Symbol)
    requires FirstSymbols(word, syms, offset)
    requires offset < |word| && (syms == [] ==> offset == 0)
    requires s.start == offset && s.n > 0 && offset + s.n <= |word| && s.prev == |syms| - 1
    requires s.next == if offset + s.n == |word| then -1 else |syms| + 1
    ensures FirstSymbols(word, syms + [s], offset + s.n)
  {
    var longer, end := syms + [s], offset + s.n;
    forall k: nat | k < |longer| ensures FirstSymbol(word, longer, end, k) {
      if k < |syms| {
        assert FirstSymbol(word, syms, offset, k);
      }
    }
  }

  /** Lists the first symbols of a word. */
  method BuildSymbols(word: Text) returns (syms: seq<Symbol>)
    ensures Linked(word, syms, Identity(|syms|)) && Pieces(word, syms, Identity(|syms|)) == Chars(word)
  {
    hide Chars;
    hide TextOf;
    hide FirstSymbol;
    syms := [];
    var offset := 0;
    while offset < |word|
      invariant 0 <= offset <= |word| && (syms == [] ==> offset == 0)
      invariant FirstSymbols(word, syms, offset)
      invariant Pieces(word, syms, Identity(|syms|)) + Chars(word[offset..]) == Chars(word)
    {
      hide Linked;
      var len := Min(|word| - offset, Utf8Len(word[offset]));
      var index := |syms|;
      var s := Symbol(index - 1, if offset + len == |word| then -1 else index + 1, offset, len);
      ghost var before := Pieces(word, syms, Identity(index));
      CharsStep(word, offset);
      FirstSymbolAdded(word, syms, offset, s);
      syms, offset := syms + [s], offset + len;
      assert Pieces(word, syms, Identity(|syms|)) == before + [TextOf(word, s)];
      SymbolText(word, s);
    }
    FirstSymbolsLinked(word, syms);
    NoChars(word[offset..]);
  }

  lemma SymbolInWord(word: Text, syms: seq<Symbol>, chain: seq<nat>, k: nat)
    requires Linked(word, syms, chain) && k < |chain|
    ensures chain[k] < |syms| && syms[chain[k]].start + syms[chain[k]].n <= |word|
  {
    assert LinkOk(word, syms, chain, k);
  }

  lemma SymbolText(word: Text, s: Symbol)
    requires s.start + s.n <= |word|
    ensures TextOf(word, s) == word[s.start..s.start + s.n]
  {
  }

  lemma NoChars(word: Text)
    requires word == []
    ensures Chars(word) == []
  {
  }

  lemma CharsStep(word: Text, offset: nat)
    requires offset < |word|
    ensures var len := Min(|word| - offset, Utf8Len(word[offset]));
      Chars(word[offset..]) == [word[offset..offset + len]] + Chars(word[offset + len..])
  {
    var len := Min(|word| - offset, Utf8Len(word[offset]));
    assert word[offset..][..len] == word[offset..offset + len];
    assert word[offset..][len..] == word[offset + len..];
  }

  lemma LinkedNext(word: Text, syms: seq<Symbol>, chain: seq<nat>, k: nat)
    requires Linked(word, syms, chain) && k < |chain|
    ensures chain[k] < |syms| && syms[chain[k]].next == NextIn(chain, k)
  {
    assert LinkOk(word, syms, chain, k);
  }

  /** The queue of the first symbols. */
  method FillQueue(word: Text, syms: seq<Symbol>, ranks: Ranks, ghost chain: seq<nat>) returns (queue: seq<Bigram>)
    requires Linked(word, syms, chain)
    requires chain == Identity(|syms|)
    ensures QueueOk(word, syms, ranks, queue)
    ensures Complete(Pieces(word, syms, chain), chain, ranks, queue)
  {
    hide TextOf;
    hide EntryOk;
    hide LinkOk;
    queue := [];
    ghost var pieces := Pieces(word, syms, chain);
    var i := 1;
    while i < |syms|
      invariant 1 <= i && QueueOk(word, syms, ranks, queue)
      invariant forall k: nat :: k + 1 < i && Ranked(pieces, ranks, k) ==> EntryFor(pieces, chain, ranks, k) in queue
    {
      assert syms[i - 1].next == i by {
        LinkedNext(word, syms, chain, i - 1);
      }
      assert pieces[i - 1] == TextOf(word, syms[i - 1]) && pieces[i] == TextOf(word, syms[i]);
      if (pieces[i - 1], pieces[i]) in ranks {
        NewEntryOk(word, syms, ranks, i - 1, i);
      }
      queue := AddBigram(word, syms, ranks, queue, i - 1, i);
      i := i + 1;
    }
  }

  lemma NewEntryOk(word: Text, syms: seq<Symbol>, ranks: Ranks, left: nat, right: nat)
    requires left < |syms| && right < |syms| && syms[left].next == right
    requires (TextOf(word, syms[left]), TextOf(word, syms[right])) in ranks
    ensures var l, r := TextOf(word, syms[left]), TextOf(word, syms[right]);
      EntryOk(word, syms, ranks, Bigram(left, right, ranks[(l, r)], l + r))
  {
  }

  /** Merges until the queue is empty. */
  method MergeSymbols(word: Text, ranks: Ranks) returns (syms: seq<Symbol>, ghost chain: seq<nat>)
    ensures Linked(word, syms, chain)
    ensures Pieces(word, syms, chain) == Greedy(Chars(word), ranks)
  {
    hide LinkOk;
    hide EntryOk;
    hide Joined;
    hide TextOf;
    hide Greedy;
    hide MergeAt;
    hide Merged;
    syms := BuildSymbols(word);
    chain := Identity(|syms|);
    var queue := FillQueue(word, syms, ranks, chain);
    while queue != []
      invariant Linked(word, syms, chain) && QueueOk(word, syms, ranks, queue)
      invariant Complete(Pieces(word, syms, chain), chain, ranks, queue)
      invariant Greedy(Pieces(word, syms, chain), ranks) == Greedy(Chars(word), ranks)
      decreases |chain|, |queue|
    {
      var b, rest, at := PopTop(queue);
      EntryInRange(word, syms, ranks, b);
      var ls, rs := syms[b.left], syms[b.right];
      if ls.n == 0 || rs.n == 0 || TextOf(word, ls) + TextOf(word, rs) != b.text {
        StaleEntry(word, syms, chain, ranks, queue, at);
        queue := rest;
      } else {
        assert b.text == Joined(word, syms, b) by {
          JoinedText(word, syms, b);
        }
        syms, queue, chain := MergePair(word, syms, ranks, b, rest, queue, at, chain);
      }
    }
    GreedyStop(Pieces(word, syms, chain), ranks);
  }

  lemma JoinedText(word: Text, syms: seq<Symbol>, e: Bigram)
    requires e.left < |syms| && e.right < |syms|
    ensures Joined(word, syms, e) == TextOf(word, syms[e.left]) + TextOf(word, syms[e.right])
  {
  }

  lemma EntryInRange(word: Text, syms: seq<Symbol>, ranks: Ranks, e: Bigram)
    requires EntryOk(word, syms, ranks, e)
    ensures e.left < |syms| && e.right < |syms|
  {
  }

  lemma StaleEntry(word: Text, syms: seq<Symbol>, chain: seq<nat>, ranks: Ranks, queue: seq<Bigram>, at: nat)
    requires Linked(word, syms, chain) && at < |queue| && QueueOk(word, syms, ranks, queue)
    requires Complete(Pieces(word, syms, chain), chain, ranks, queue)
    requires queue[at].left < |syms| && queue[at].right < |syms|
    requires !Alive(syms, queue[at].left) || !Alive(syms, queue[at].right)
             || TextOf(word, syms[queue[at].left]) + TextOf(word, syms[queue[at].right]) != queue[at].text
    ensures Complete(Pieces(word, syms, chain), chain, ranks, RemoveAt(queue, at))
    ensures QueueOk(word, syms, ranks, RemoveAt(queue, at))
  {
    hide EntryOk;
    hide LinkOk;
    StaleIsNotNeeded(word, syms, chain, ranks, queue, at);
  }

  lemma FreshEntryOk(word: Text, syms: seq<Symbol>, chain: seq<nat>, ranks: Ranks, k: nat)
    requires Linked(word, syms, chain) && Ranked(Pieces(word, syms, chain), ranks, k)
    ensures EntryOk(word, syms, ranks, EntryFor(Pieces(word, syms, chain), chain, ranks, k))
  {
    hide TextOf;
    assert LinkOk(word, syms, chain, k) && LinkOk(word, syms, chain, k + 1);
  }

  /** Extends the left symbol by the right one, which it unlinks. */
  method Absorb(syms: seq<Symbol>, left: nat, right: nat) returns (r: seq<Symbol>)
    requires left < |syms| && right < |syms| && left != right
    requires syms[right].next < |syms| && syms[right].next != left && syms[right].next != right
    ensures r == Merged(syms, left, right)
  {
    var next := syms[right].next;
    r := syms[left := syms[left].(n := syms[left].n + syms[right].n)];
    r := r[right := r[right].(n := 0)];
    r := r[left := r[left].(next := next)];
    if next >= 0 {
      r := r[next := r[next].(prev := left)];
    }
  }

  /** What AddBigram returns. */
  function WithPair(word: Text, syms: seq<Symbol>, ranks: Ranks, queue: seq<Bigram>, left: int, right: int): seq<Bigram>
    requires -1 <= left < |syms| && -1 <= right < |syms|
  {
    if left >= 0 && right >= 0 && (TextOf(word, syms[left]), TextOf(word, syms[right])) in ranks then
      var l, t := TextOf(word, syms[left]), TextOf(word, syms[right]);
      queue + [Bigram(left, right, ranks[(l, t)], l + t)]
    else queue
  }

  lemma PairQueued(word: Text, syms: seq<Symbol>, chain: seq<nat>, ranks: Ranks, queue: seq<Bigram>, k: nat, left: int, right: int)
    requires Linked(word, syms, chain) && QueueOk(word, syms, ranks, queue)
    requires -1 <= left < |syms| && -1 <= right < |syms|
    requires k < |chain| && left == chain[k] && right == NextIn(chain, k)
    ensures var q := WithPair(word, syms, ranks, queue, left, right);
      && QueueOk(word, syms, ranks, q)
      && (forall e :: e in queue ==> e in q)
      && (Ranked(Pieces(word, syms, chain), ranks, k) ==> EntryFor(Pieces(word, syms, chain), chain, ranks, k) in q)
  {
    hide TextOf;
    hide LinkOk;
    hide EntryOk;
    ChainInRange(word, syms, chain);
    if Ranked(Pieces(word, syms, chain), ranks, k) {
      FreshEntryOk(word, syms, chain, ranks, k);
    }
  }

  lemma NoPairQueued(word: Text, syms: seq<Symbol>, ranks: Ranks, queue: seq<Bigram>, left: int, right: int)
    requires -1 <= left < |syms| && -1 <= right < |syms| && left == -1
    ensures WithPair(word, syms, ranks, queue, left, right) == queue
  {
  }

  /** Merges the two symbols of a fresh entry in place and queues the pairs on either side. */
  method MergePair(word: Text, syms: seq<Symbol>, ranks: Ranks, b: Bigram, popped: seq<Bigram>,
                   ghost queue: seq<Bigram>, ghost at: nat, ghost chain: seq<nat>)
      returns (r: seq<Symbol>, q: seq<Bigram>, ghost rest: seq<nat>)
    requires Linked(word, syms, chain) && QueueOk(word, syms, ranks, queue)
    requires Complete(Pieces(word, syms, chain), chain, ranks, queue)
    requires at < |queue| && b == queue[at] && forall e :: e in queue ==> Before(b, e)
    requires popped == RemoveAt(queue, at)
    requires Alive(syms, b.left) && Alive(syms, b.right) && b.text == Joined(word, syms, b)
    ensures Linked(word, r, rest) && QueueOk(word, r, ranks, q)
    ensures Complete(Pieces(word, r, rest), rest, ranks, q)
    ensures Greedy(Pieces(word, r, rest), ranks) == Greedy(Pieces(word, syms, chain), ranks)
    ensures |rest| < |chain|
  {
    hide Linked;
    hide EntryOk;
    hide TextOf;
    hide Greedy;
    hide MergeAt;
    hide Merged;
    hide WithPair;
    hide Pieces;
    hide Complete;
    hide QueueOk;
    hide IsBest;
    hide Joined;
    ghost var k := TopIsBest(word, syms, chain, ranks, queue, b);
    ghost var pieces := Pieces(word, syms, chain);
    Neighbours(word, syms, chain, k);
    r := Absorb(syms, b.left, b.right);
    rest := RemoveAt(chain, k + 1);
    MergedLinks(word, syms, chain, k);
    LinkNeighbours(word, r, rest, k);
    GreedyStep(pieces, ranks, k);
    MergedQueueOk(word, syms, chain, ranks, queue, at, k);
    q := AddBigram(word, r, ranks, popped, r[b.left].prev, b.left);
    if k > 0 {
      PairQueued(word, r, rest, ranks, popped, k - 1, r[b.left].prev, b.left);
    } else {
      NoPairQueued(word, r, ranks, popped, r[b.left].prev, b.left);
    }
    ghost var q1 := q;
    q := AddBigram(word, r, ranks, q, b.left, r[b.left].next);
    PairQueued(word, r, rest, ranks, q1, k, b.left, r[b.left].next);
    OtherPairsStay(word, syms, chain, ranks, queue, at, k);
    MergedComplete(pieces, chain, ranks, popped, k, q);
  }

  lemma Neighbours(word: Text, syms: seq<Symbol>, chain: seq<nat>, k: nat)
    requires Linked(word, syms, chain) && k + 1 < |chain|
    ensures chain[k] < |syms| && chain[k + 1] < |syms| && chain[k] != chain[k + 1]
    ensures syms[chain[k + 1]].next == NextIn(chain, k + 1) < |syms|
    ensures NextIn(chain, k + 1) != chain[k] && NextIn(chain, k + 1) != chain[k + 1]
  {
    ChainInRange(word, syms, chain);
    assert LinkOk(word, syms, chain, k + 1);
    ChainGrows(word, syms, chain, k, k + 1);
    if k + 2 < |chain| {
      ChainGrows(word, syms, chain, k + 1, k + 2);
    }
  }

  lemma MergedQueueOk(word: Text, syms: seq<Symbol>, chain: seq<nat>, ranks: Ranks, queue: seq<Bigram>, at: nat, k: nat)
    requires Linked(word, syms, chain) && k + 1 < |chain|
    requires chain[k] < |syms| && chain[k + 1] < |syms| && syms[chain[k + 1]].next < |syms|
    requires at < |queue| && QueueOk(word, syms, ranks, queue)
    ensures QueueOk(word, Merged(syms, chain[k], chain[k + 1]), ranks, RemoveAt(queue, at))
  {
    hide EntryOk;
    hide Merged;
    hide LinkOk;
    forall e | e in RemoveAt(queue, at) ensures EntryOk(word, Merged(syms, chain[k], chain[k + 1]), ranks, e) {
      MergedEntryOk(word, syms, chain, k, ranks, e);
    }
  }

  lemma OtherPairsStay(word: Text, syms: seq<Symbol>, chain: seq<nat>, ranks: Ranks, queue: seq<Bigram>, at: nat, k: nat)
    requires Linked(word, syms, chain) && at < |queue| && k < |chain| && queue[at].left == chain[k]
    requires Complete(Pieces(word, syms, chain), chain, ranks, queue)
    ensures forall j: nat :: Ranked(Pieces(word, syms, chain), ranks, j) && j != k ==>
      EntryFor(Pieces(word, syms, chain), chain, ranks, j) in RemoveAt(queue, at)
  {
    hide Linked;
    hide TextOf;
    forall j: nat | Ranked(Pieces(word, syms, chain), ranks, j) && j != k
      ensures EntryFor(Pieces(word, syms, chain), chain, ranks, j) in RemoveAt(queue, at)
    {
      OtherPairStays(word, syms, chain, ranks, queue, at, k, j);
    }
  }

  lemma OtherPairStays(word: Text, syms: seq<Symbol>, chain: seq<nat>, ranks: Ranks, queue: seq<Bigram>, at: nat,
                       k: nat, j: nat)
    requires Linked(word, syms, chain) && at < |queue| && k < |chain| && queue[at].left == chain[k] && j != k
    requires Complete(Pieces(word, syms, chain), chain, ranks, queue) && Ranked(Pieces(word, syms, chain), ranks, j)
    ensures EntryFor(Pieces(word, syms, chain), chain, ranks, j) in RemoveAt(queue, at)
  {
    hide TextOf;
    hide LinkOk;
    var e := EntryFor(Pieces(word, syms, chain), chain, ranks, j);
    if chain[j] == chain[k] {
      PlaceIsUnique(word, syms, chain, j, k);
    }
    StaysIn(queue, at, e);
  }

  lemma LinkNeighbours(word: Text, syms: seq<Symbol>, chain: seq<nat>, k: nat)
    requires Linked(word, syms, chain) && k < |chain|
    ensures chain[k] < |syms| && syms[chain[k]].prev == PrevIn(chain, k) && syms[chain[k]].next == NextIn(chain, k)
    ensures syms[chain[k]].prev < |syms| && syms[chain[k]].next < |syms|
  {
    assert LinkOk(word, syms, chain, k);
    if k > 0 {
      assert LinkOk(word, syms, chain, k - 1);
    }
  }

  // ---- the tokens -------------------------------------------------------------------------------

  type Vocab = map<Text, int>

  function ByteTokens(text: Text, vocab: Vocab): seq<int> {
    if text == [] then []
    else (if [text[0]] in vocab then [vocab[[text[0]]]] else []) + ByteTokens(text[1..], vocab)
  }

  /** The token of a piece, or those of its bytes when the piece has none. */
  function PieceTokens(piece: Text, vocab: Vocab): seq<int> {
    if piece in vocab then [vocab[piece]] else ByteTokens(piece, vocab)
  }

  function Tokens(pieces: seq<Text>, vocab: Vocab): seq<int> {
    if pieces == [] then [] else PieceTokens(pieces[0], vocab) + Tokens(pieces[1..], vocab)
  }

  lemma {:induction false} TokensSplit(a: seq<Text>, b: seq<Text>, vocab: Vocab)
    ensures Tokens(a + b, vocab) == Tokens(a, vocab) + Tokens(b, vocab)
  {
    hide PieceTokens;
    if a == [] {
      assert a + b == b;
    } else {
      TokensSplit(a[1..], b, vocab);
      assert (a + b)[1..] == a[1..] + b && (a + b)[0] == a[0];
      var x, y, z := PieceTokens(a[0], vocab), Tokens(a[1..], vocab), Tokens(b, vocab);
      assert x + (y + z) == x + y + z;
    }
  }

  method EmitPiece(piece: Text, vocab: Vocab, out: seq<int>) returns (r: seq<int>)
    ensures r == out + PieceTokens(piece, vocab)
  {
    r := out;
    if piece in vocab {
      r := r + [vocab[piece]];
    } else {
      for i := 0 to |piece|
        invariant r + ByteTokens(piece[i..], vocab) == out + ByteTokens(piece, vocab)
      {
        assert piece[i..][1..] == piece[i + 1..];
        if [piece[i]] in vocab {
          r := r + [vocab[[piece[i]]]];
        }
      }
    }
  }

  /** Appends the tokens of a word: those of the pieces that greedy merging leaves. */
  method BpeWord(word: Text, ranks: Ranks, vocab: Vocab, out: seq<int>) returns (r: seq<int>)
    ensures r == out + Tokens(Greedy(Chars(word), ranks), vocab)
  {
    hide Greedy;
    hide TextOf;
    hide LinkOk;
    hide PieceTokens;
    hide Tokens;
    hide Linked;
    hide Pieces;
    if word == [] {
      NoTokens(ranks, vocab);
      return out;
    }
    var syms;
    ghost var chain;
    syms, chain := MergeSymbols(word, ranks);
    ghost var pieces := Pieces(word, syms, chain);
    ghost var c: nat := 0;
    r := out;
    NoTokens(ranks, vocab);
    for i := 0 to |syms|
      invariant c <= |chain| && (forall j: nat :: j < c ==> chain[j] < i)
      invariant forall j: nat :: c <= j < |chain| ==> chain[j] >= i
      invariant r == out + Tokens(pieces[..c], vocab)
    {
      if syms[i].n != 0 {
        NextLive(word, syms, chain, c, i);
        r := EmitPiece(TextOf(word, syms[i]), vocab, r);
        TokensSplit(pieces[..c], [pieces[c]], vocab);
        assert pieces[..c + 1] == pieces[..c] + [pieces[c]];
        OneTokens(pieces[c], vocab);
        c := c + 1;
      } else {
        DeadIsSkipped(word, syms, chain, i);
      }
    }
    if c < |chain| {
      PlaceInRange(word, syms, chain, c);
      assert false;
    }
    assert pieces[..c] == pieces;
  }

  lemma NoTokens(ranks: Ranks, vocab: Vocab)
    ensures Greedy(Chars([]), ranks) == [] && Tokens([], vocab) == []
  {
    GreedyStop([], ranks);
  }

  lemma PlaceInRange(word: Text, syms: seq<Symbol>, chain: seq<nat>, k: nat)
    requires Linked(word, syms, chain) && k < |chain|
    ensures chain[k] < |syms|
  {
    assert LinkOk(word, syms, chain, k);
  }

  lemma OneTokens(piece: Text, vocab: Vocab)
    ensures Tokens([piece], vocab) == PieceTokens(piece, vocab)
  {
    assert [piece][1..] == [];
  }

  /** The next live symbol is the next of the chain. */
  lemma NextLive(word: Text, syms: seq<Symbol>, chain: seq<nat>, c: nat, i: nat)
    requires Linked(word, syms, chain) && c <= |chain| && i < |syms| && syms[i].n > 0
    requires forall j: nat :: j < c ==> chain[j] < i
    requires forall j: nat :: c <= j < |chain| ==> chain[j] >= i
    ensures c < |chain| && chain[c] == i && Pieces(word, syms, chain)[c] == TextOf(word, syms[i])
    ensures forall j: nat :: c + 1 <= j < |chain| ==> chain[j] > i
  {
    hide LinkOk;
    var k: nat :| k < |chain| && chain[k] == i;
    if c < k {
      ChainGrows(word, syms, chain, c, k);
    }
    forall j: nat | c + 1 <= j < |chain| ensures chain[j] > i {
      ChainGrows(word, syms, chain, c, j);
    }
  }

  lemma DeadIsSkipped(word: Text, syms: seq<Symbol>, chain: seq<nat>, i: nat)
    requires Linked(word, syms, chain) && i < |syms| && syms[i].n == 0
    ensures i !in chain
  {
    forall k: nat | k < |chain| ensures chain[k] != i {
      assert LinkOk(word, syms, chain, k);
    }
  }
}
