/** Regular expressions over code points with the matching order of backtracking engines. */
module Regex {
  import opened Results

  type Class = nat -> bool

  /** Repetition and option apply to character classes only. */
  datatype Re =
    | One(c: Class)
    | Opt(c: Class)
    | Star(c: Class)
    | NotAhead(c: Class)
    | Then(a: Re, b: Re)
    | Or(a: Re, b: Re)

  predicate At(s: seq<nat>, p: nat, c: Class) {
    p < |s| && c(s[p])
  }

  /** Where the matches that start at p end, the preferred one first. */
  function Ends(re: Re, s: seq<nat>, p: nat): seq<nat>
    decreases re, 0, |s| - p
  {
    match re
    case One(c) => if At(s, p, c) then [p + 1] else []
    case Opt(c) => if At(s, p, c) then [p + 1, p] else [p]
    case Star(c) => if At(s, p, c) then Ends(re, s, p + 1) + [p] else [p]
    case NotAhead(c) => if At(s, p, c) then [] else [p]
    case Then(a, b) => Continue(b, s, Ends(a, s, p))
    case Or(a, b) => Ends(a, s, p) + Ends(b, s, p)
  }

  /** The ends of a match of `re` from each of the given places in turn. */
  function Continue(re: Re, s: seq<nat>, places: seq<nat>): seq<nat>
    decreases re, 1, |places|
  {
    if places == [] then [] else Ends(re, s, places[0]) + Continue(re, s, places[1..])
  }

  /** The end of the match an engine reports. */
  function First(re: Re, s: seq<nat>, p: nat): Option<nat> {
    var ends := Ends(re, s, p);
    if ends == [] then None else Some(ends[0])
  }

  function Plus(c: Class): Re {
    Then(One(c), Star(c))
  }

  // ---- first matches ----------------------------------------------------------------------------

  /** The end of the run of a class. */
  function RunEnd(s: seq<nat>, p: nat, c: Class): (r: nat)
    requires p <= |s|
    ensures p <= r <= |s| && !At(s, r, c)
    ensures forall k :: p <= k < r ==> c(s[k])
    decreases |s| - p
  {
    if At(s, p, c) then RunEnd(s, p + 1, c) else p
  }

  /** A repetition prefers the whole run, then every shorter one down to nothing. */
  lemma {:induction false} StarEnds(s: seq<nat>, p: nat, c: Class)
    requires p <= |s|
    ensures var ends := Ends(Star(c), s, p);
      |ends| == RunEnd(s, p, c) - p + 1 && forall k :: 0 <= k < |ends| ==> ends[k] == RunEnd(s, p, c) - k
    decreases |s| - p
  {
    if At(s, p, c) {
      StarEnds(s, p + 1, c);
    }
  }

  lemma FirstStar(s: seq<nat>, p: nat, c: Class)
    requires p <= |s|
    ensures First(Star(c), s, p) == Some(RunEnd(s, p, c))
  {
    StarEnds(s, p, c);
  }

  lemma FirstOne(s: seq<nat>, p: nat, c: Class)
    ensures First(One(c), s, p) == if At(s, p, c) then Some(p + 1) else None
  {
  }

  lemma FirstOr(a: Re, b: Re, s: seq<nat>, p: nat)
    ensures First(Or(a, b), s, p) == if First(a, s, p).Some? then First(a, s, p) else First(b, s, p)
  {
  }

  /** The first place from which `re` matches decides. */
  lemma {:induction false} FirstContinue(re: Re, s: seq<nat>, places: seq<nat>, k: nat)
    requires k <= |places| && forall j :: 0 <= j < k ==> First(re, s, places[j]).None?
    ensures k < |places| && First(re, s, places[k]).Some? ==>
      Continue(re, s, places) != [] && Continue(re, s, places)[0] == First(re, s, places[k]).value
    ensures k == |places| ==> Continue(re, s, places) == []
    decreases k
  {
    if k > 0 {
      assert First(re, s, places[0]).None?;
      assert forall j :: 0 <= j < k - 1 ==> places[1..][j] == places[j + 1];
      FirstContinue(re, s, places[1..], k - 1);
    }
  }

  lemma FirstThenOne(c: Class, b: Re, s: seq<nat>, p: nat)
    ensures First(Then(One(c), b), s, p) == if At(s, p, c) then First(b, s, p + 1) else None
  {
    var places := Ends(One(c), s, p);
    FirstOfThen(One(c), b, s, p);
    if At(s, p, c) {
      assert places == [p + 1] && places[1..] == [];
      assert Continue(b, s, places[1..]) == [];
    }
  }

  lemma FirstThenOpt(c: Class, b: Re, s: seq<nat>, p: nat)
    ensures First(Then(Opt(c), b), s, p)
         == if At(s, p, c) && First(b, s, p + 1).Some? then First(b, s, p + 1) else First(b, s, p)
  {
    var places := Ends(Opt(c), s, p);
    if At(s, p, c) {
      assert places == [p + 1, p] && places[1..] == [p];
      assert [p][1..] == [];
      assert Continue(b, s, [p]) == Ends(b, s, p);
    } else {
      assert places == [p] && places[1..] == [];
      assert Continue(b, s, [p]) == Ends(b, s, p);
    }
  }

  lemma FirstPlus(c: Class, s: seq<nat>, p: nat)
    ensures First(Plus(c), s, p) == if At(s, p, c) then Some(RunEnd(s, p + 1, c)) else None
  {
    FirstThenOne(c, Star(c), s, p);
    if At(s, p, c) {
      FirstStar(s, p + 1, c);
    }
  }

  /** After a run, the longest prefix of the run that can be continued decides. */
  lemma FirstAfterRun(c: Class, b: Re, s: seq<nat>, p: nat, q: nat)
    requires p <= |s| && p <= q <= RunEnd(s, p, c) && First(b, s, q).Some?
    requires forall k :: q < k <= RunEnd(s, p, c) ==> First(b, s, k).None?
    ensures First(Then(Star(c), b), s, p) == First(b, s, q)
  {
    hide First;
    StarEnds(s, p, c);
    var places, k := Ends(Star(c), s, p), RunEnd(s, p, c) - q;
    forall j | 0 <= j < k ensures First(b, s, places[j]).None? {
      assert places[j] == RunEnd(s, p, c) - j;
    }
    FirstContinue(b, s, places, k);
    FirstOfThen(Star(c), b, s, p);
  }

  lemma NoneAfterRun(c: Class, b: Re, s: seq<nat>, p: nat)
    requires p <= |s| && forall k :: p <= k <= RunEnd(s, p, c) ==> First(b, s, k).None?
    ensures First(Then(Star(c), b), s, p) == None
  {
    hide First;
    StarEnds(s, p, c);
    var places := Ends(Star(c), s, p);
    forall j | 0 <= j < |places| ensures First(b, s, places[j]).None? {
      assert places[j] == RunEnd(s, p, c) - j;
    }
    FirstContinue(b, s, places, |places|);
    FirstOfThen(Star(c), b, s, p);
  }

  lemma FirstOfThen(a: Re, b: Re, s: seq<nat>, p: nat)
    ensures var ends := Continue(b, s, Ends(a, s, p));
      First(Then(a, b), s, p) == if ends == [] then None else Some(ends[0])
  {
  }
}
