/** Byte-pair merging as the definition has it: while some pair of neighbours is ranked, merge the
    one of lowest rank, the leftmost of those that tie. */
module BpeGreedy {
  import opened Arith
  import opened Results

  type Text = seq<byte>
  type Ranks = map<(Text, Text), int>

  function Concat(pieces: seq<Text>): Text {
    if pieces == [] then [] else pieces[0] + Concat(pieces[1..])
  }

  lemma Associative<T>(x: seq<T>, y: seq<T>, z: seq<T>)
    ensures x + (y + z) == x + y + z
  {
  }

  lemma {:induction false} ConcatSplits(a: seq<Text>, b: seq<Text>)
    ensures Concat(a + b) == Concat(a) + Concat(b)
  {
    if a == [] {
      assert a + b == b;
    } else {
      ConcatSplits(a[1..], b);
      assert (a + b)[1..] == a[1..] + b && (a + b)[0] == a[0];
      Associative(a[0], Concat(a[1..]), Concat(b));
    }
  }

  /** The pair of pieces k and k + 1 has a rank. */
  predicate Ranked(pieces: seq<Text>, ranks: Ranks, k: nat) {
    k + 1 < |pieces| && (pieces[k], pieces[k + 1]) in ranks
  }

  function RankAt(pieces: seq<Text>, ranks: Ranks, k: nat): int
    requires Ranked(pieces, ranks, k)
  {
    ranks[(pieces[k], pieces[k + 1])]
  }

  /** Pair k is merged before pair j. */
  predicate Precedes(pieces: seq<Text>, ranks: Ranks, k: nat, j: nat)
    requires Ranked(pieces, ranks, k) && Ranked(pieces, ranks, j)
  {
    RankAt(pieces, ranks, k) < RankAt(pieces, ranks, j)
    || (RankAt(pieces, ranks, k) == RankAt(pieces, ranks, j) && k <= j)
  }

  ghost predicate IsBest(pieces: seq<Text>, ranks: Ranks, k: nat) {
    Ranked(pieces, ranks, k)
    && forall j: nat :: Ranked(pieces, ranks, j) ==> Precedes(pieces, ranks, k, j)
  }

  /** The pair to merge among the first n, by a scan from the left. */
  function BestBelow(pieces: seq<Text>, ranks: Ranks, n: nat): (r: Option<nat>)
    ensures r.Some? ==> r.value < n && Ranked(pieces, ranks, r.value)
    ensures r.Some? ==> forall j: nat :: j < n && Ranked(pieces, ranks, j) ==> Precedes(pieces, ranks, r.value, j)
    ensures r.None? ==> forall j: nat :: j < n ==> !Ranked(pieces, ranks, j)
  {
    if n == 0 then None
    else
      var before := BestBelow(pieces, ranks, n - 1);
      if Ranked(pieces, ranks, n - 1)
         && (before.None? || RankAt(pieces, ranks, n - 1) < RankAt(pieces, ranks, before.value))
      then Some(n - 1)
      else before
  }

  function MergeAt(pieces: seq<Text>, k: nat): (r: seq<Text>)
    requires k + 1 < |pieces|
    ensures |r| == |pieces| - 1
  {
    pieces[..k] + [pieces[k] + pieces[k + 1]] + pieces[k + 2..]
  }

  function Greedy(pieces: seq<Text>, ranks: Ranks): seq<Text>
    decreases |pieces|
  {
    var best := BestBelow(pieces, ranks, |pieces|);
    if best.None? then pieces else Greedy(MergeAt(pieces, best.value), ranks)
  }

  /** One merge: of the pair of lowest rank, the leftmost of those that tie. */
  lemma MergesBest(pieces: seq<Text>, ranks: Ranks, k: nat)
    requires k + 1 < |pieces| && (pieces[k], pieces[k + 1]) in ranks
    requires forall j: nat :: j + 1 < |pieces| && (pieces[j], pieces[j + 1]) in ranks ==>
      || ranks[(pieces[k], pieces[k + 1])] < ranks[(pieces[j], pieces[j + 1])]
      || (ranks[(pieces[k], pieces[k + 1])] == ranks[(pieces[j], pieces[j + 1])] && k <= j)
    ensures Greedy(pieces, ranks) == Greedy(pieces[..k] + [pieces[k] + pieces[k + 1]] + pieces[k + 2..], ranks)
  {
    assert IsBest(pieces, ranks, k);
    GreedyStep(pieces, ranks, k);
  }

  /** Merging ends when no pair of neighbours is ranked, and not before. */
  lemma MergesUntilNone(pieces: seq<Text>, ranks: Ranks)
    ensures Greedy(pieces, ranks) == pieces <==>
      forall j: nat :: j + 1 < |pieces| ==> (pieces[j], pieces[j + 1]) !in ranks
  {
    if forall j: nat :: j + 1 < |pieces| ==> (pieces[j], pieces[j + 1]) !in ranks {
      assert forall k: nat :: !Ranked(pieces, ranks, k);
      GreedyStop(pieces, ranks);
    } else {
      var j: nat :| j + 1 < |pieces| && (pieces[j], pieces[j + 1]) in ranks;
      assert Ranked(pieces, ranks, j);
      GreedyNotLonger(MergeAt(pieces, BestBelow(pieces, ranks, |pieces|).value), ranks);
    }
  }

  lemma {:induction false} GreedyNotLonger(pieces: seq<Text>, ranks: Ranks)
    ensures |Greedy(pieces, ranks)| <= |pieces|
    decreases |pieces|
  {
    var best := BestBelow(pieces, ranks, |pieces|);
    if best.Some? {
      GreedyNotLonger(MergeAt(pieces, best.value), ranks);
    }
  }

  lemma GreedyStep(pieces: seq<Text>, ranks: Ranks, k: nat)
    requires IsBest(pieces, ranks, k)
    ensures Greedy(pieces, ranks) == Greedy(MergeAt(pieces, k), ranks)
  {
    var best := BestBelow(pieces, ranks, |pieces|);
    assert best.Some?;
    assert Precedes(pieces, ranks, best.value, k) && Precedes(pieces, ranks, k, best.value);
  }

  lemma GreedyStop(pieces: seq<Text>, ranks: Ranks)
    requires forall k: nat :: !Ranked(pieces, ranks, k)
    ensures Greedy(pieces, ranks) == pieces
  {
  }

  lemma TwoPieces(x: Text, y: Text)
    ensures Concat([x, y]) == x + y == Concat([x + y])
  {
    assert [x, y][1..] == [y] && [y][1..] == [] && [x + y][1..] == [];
    assert Concat([y]) == y;
  }

  lemma MergeKeepsText(pieces: seq<Text>, k: nat)
    requires k + 1 < |pieces|
    ensures Concat(MergeAt(pieces, k)) == Concat(pieces)
  {
    hide Concat;
    var a, b := pieces[..k], pieces[k + 2..];
    var x, y := pieces[k], pieces[k + 1];
    CutAtPair(pieces, k);
    ConcatThree(a, [x, y], b);
    ConcatThree(a, [x + y], b);
    TwoPieces(x, y);
  }

  lemma CutAtPair<T>(xs: seq<T>, k: nat)
    requires k + 1 < |xs|
    ensures xs == xs[..k] + [xs[k], xs[k + 1]] + xs[k + 2..]
  {
  }

  lemma ConcatThree(a: seq<Text>, b: seq<Text>, c: seq<Text>)
    ensures Concat(a + b + c) == Concat(a) + Concat(b) + Concat(c)
  {
    hide Concat;
    ConcatSplits(a + b, c);
    ConcatSplits(a, b);
  }

  /** Merging neither loses nor adds a byte, and stops only when no pair is ranked. */
  lemma {:induction false} GreedyResult(pieces: seq<Text>, ranks: Ranks)
    ensures Concat(Greedy(pieces, ranks)) == Concat(pieces)
    ensures forall k: nat :: !Ranked(Greedy(pieces, ranks), ranks, k)
    decreases |pieces|
  {
    hide Concat;
    var best := BestBelow(pieces, ranks, |pieces|);
    if best.Some? {
      MergeKeepsText(pieces, best.value);
      GreedyResult(MergeAt(pieces, best.value), ranks);
    }
  }

  // ---- the first pieces -------------------------------------------------------------------------

  /** The length a lead byte announces. */
  function Utf8Len(lead: byte): (r: nat)
    ensures 1 <= r <= 4
  {
    if lead < 0xC0 then 1 else if lead < 0xE0 then 2 else if lead < 0xF0 then 3 else 4
  }

  /** A word cut where its bytes announce it. */
  function Chars(word: Text): seq<Text>
    decreases |word|
  {
    if word == [] then []
    else
      var len := Min(|word|, Utf8Len(word[0]));
      [word[..len]] + Chars(word[len..])
  }

  lemma {:induction false} CharsConcat(word: Text)
    ensures Concat(Chars(word)) == word
    ensures forall k :: 0 <= k < |Chars(word)| ==> Chars(word)[k] != []
    decreases |word|
  {
    if word != [] {
      var len := Min(|word|, Utf8Len(word[0]));
      CharsConcat(word[len..]);
      assert word[..len] + word[len..] == word;
    }
  }
}
