/** The nullable rules: the least fixpoint is exactly the rules that derive the empty string. */
module GrammarNullable {
  import opened GrammarRules

  /** The rule derives the empty string. */
  ghost predicate Nullable(rules: Rules, id: nat)
    requires id < |rules|
  {
    RuleDerives(rules, id, [])
  }

  ghost predicate NullablePlace(rules: Rules, p: Pos) {
    Derives(rules, p, [])
  }

  /** The flags mark exactly the nullable rules. */
  ghost predicate MarksNullable(rules: Rules, nullable: seq<bool>) {
    |nullable| == |rules| && forall id :: 0 <= id < |rules| ==> (nullable[id] <==> Nullable(rules, id))
  }

  /** Everything from `p` to the end of its alternate is a reference to a flagged rule. */
  ghost predicate Flagged(rules: Rules, nullable: seq<bool>, p: Pos)
    requires p.rule < |rules| && |nullable| == |rules|
    decreases if p.at < |rules[p.rule]| then |rules[p.rule]| - p.at else 0
  {
    p.at < |rules[p.rule]| &&
    (IsEnd(Elem(rules, p))
     || (Elem(rules, p).kind == RuleRef && Elem(rules, p).value < |rules|
         && nullable[Elem(rules, p).value] && Flagged(rules, nullable, Next(p))))
  }

  ghost predicate SomeFlagged(rules: Rules, nullable: seq<bool>, id: nat)
    requires id < |rules| && |nullable| == |rules|
  {
    exists a: nat :: StartsAlternate(rules[id], a) && Flagged(rules, nullable, Pos(id, a))
  }

  /** Only rules that derive the empty string are flagged. */
  ghost predicate Sound(rules: Rules, nullable: seq<bool>) {
    |nullable| == |rules| && forall id :: 0 <= id < |rules| && nullable[id] ==> Nullable(rules, id)
  }

  lemma NullablePlaceAtRef(rules: Rules, p: Pos)
    requires WellFormed(rules) && IsPlace(rules, p) && Elem(rules, p).kind == RuleRef
    ensures Elem(rules, p).value < |rules|
    ensures NullablePlace(rules, p) <==> Nullable(rules, Elem(rules, p).value) && NullablePlace(rules, Next(p))
  {
    DerivesAtRef(rules, p, []);
    var e: seq<nat> := [];
    assert e[..0] == e && e[0..] == e;
    if Nullable(rules, Elem(rules, p).value) && NullablePlace(rules, Next(p)) {
      assert CallSplits(rules, Elem(rules, p).value, Next(p), e, 0);
    }
  }

  lemma {:induction false} FlaggedIsNullable(rules: Rules, nullable: seq<bool>, p: Pos)
    requires WellFormed(rules) && Sound(rules, nullable) && IsPlace(rules, p)
    requires Flagged(rules, nullable, p)
    ensures NullablePlace(rules, p)
    decreases |rules[p.rule]| - p.at
  {
    if IsEnd(Elem(rules, p)) {
      DerivesAtEnd(rules, p, []);
    } else {
      PlaceAfter(rules, p);
      FlaggedIsNullable(rules, nullable, Next(p));
      NullablePlaceAtRef(rules, p);
    }
  }

  /** Flags that no alternate adds to reach every empty derivation. */
  lemma {:induction false} EmptyParseIsFlagged(rules: Rules, nullable: seq<bool>, p: Pos, t: Parse)
    requires |nullable| == |rules| && IsParse(rules, p, t, [])
    requires forall id :: 0 <= id < |rules| && SomeFlagged(rules, nullable, id) ==> nullable[id]
    ensures Flagged(rules, nullable, p)
    decreases t
  {
    match t
    case Done =>
    case Eat(_) =>
    case Call(alt, k, sub, rest) =>
      var id := Elem(rules, p).value;
      var e: seq<nat> := [];
      assert e[..k] == e && e[k..] == e;
      EmptyParseIsFlagged(rules, nullable, Pos(id, alt), sub);
      assert SomeFlagged(rules, nullable, id);
      EmptyParseIsFlagged(rules, nullable, Next(p), rest);
  }

  lemma FixpointIsExact(rules: Rules, nullable: seq<bool>)
    requires Sound(rules, nullable)
    requires forall id :: 0 <= id < |rules| && SomeFlagged(rules, nullable, id) ==> nullable[id]
    ensures MarksNullable(rules, nullable)
  {
    forall id | 0 <= id < |rules| && Nullable(rules, id) ensures nullable[id] {
      var a: nat :| StartsAlternate(rules[id], a) && Derives(rules, Pos(id, a), []);
      var t :| IsParse(rules, Pos(id, a), t, []);
      EmptyParseIsFlagged(rules, nullable, Pos(id, a), t);
    }
  }

  /** Whether an alternate ending at or after `p` is all flagged, given that the current one is so
      far flagged or not. */
  ghost predicate Scan(rules: Rules, nullable: seq<bool>, p: Pos, soFar: bool) {
    && p.rule < |rules| && p.at < |rules[p.rule]| && |nullable| == |rules|
    && (|| (soFar && Flagged(rules, nullable, p))
        || exists a: nat :: p.at < a && StartsAlternate(rules[p.rule], a) && Flagged(rules, nullable, Pos(p.rule, a)))
  }

  /** No alternate starts inside a symbol. */
  lemma {:induction false} NoAlternateInSet(r: Rule, i: nat, n: nat, a: nat)
    requires WellFormedRule(r, n) && i < |r| && (OpensSet(r[i]) || r[i].kind == CharAlt)
    requires i < a <= AfterSet(r, i) && a < |r|
    ensures r[a - 1].kind != Alt
    decreases |r| - i
  {
    var m := NextMember(r, i);
    if m < a {
      NoAlternateInSet(r, m, n, a);
    }
  }

  lemma ScanAtEnd(rules: Rules, nullable: seq<bool>, p: Pos, soFar: bool)
    requires WellFormed(rules) && |nullable| == |rules| && IsPlace(rules, p) && IsEnd(Elem(rules, p))
    ensures soFar ==> Scan(rules, nullable, p, soFar)
    ensures !soFar && Elem(rules, p).kind == End ==> !Scan(rules, nullable, p, soFar)
    ensures Elem(rules, p).kind == Alt ==> IsPlace(rules, Next(p))
    ensures !soFar && Elem(rules, p).kind == Alt ==> (Scan(rules, nullable, p, soFar) <==> Scan(rules, nullable, Next(p), true))
  {
    assert WellFormedRule(rules[p.rule], |rules|);
    if Elem(rules, p).kind == Alt {
      AlternateIsPlace(rules, p.rule, p.at + 1);
      if Scan(rules, nullable, p, false) {
        var a: nat :| p.at < a && StartsAlternate(rules[p.rule], a) && Flagged(rules, nullable, Pos(p.rule, a));
        assert a == p.at + 1 || Next(p).at < a;
      }
    }
  }

  lemma ScanAtSymbol(rules: Rules, nullable: seq<bool>, p: Pos, soFar: bool, q: Pos)
    requires WellFormed(rules) && |nullable| == |rules| && IsPlace(rules, p) && !IsEnd(Elem(rules, p))
    requires q == if OpensSet(Elem(rules, p)) then PastSet(rules, p) else Next(p)
    ensures IsPlace(rules, q) && p.at < q.at
    ensures Elem(rules, p).kind == RuleRef ==> Elem(rules, p).value < |rules|
    ensures var soFar' := Elem(rules, p).kind == RuleRef && soFar && nullable[Elem(rules, p).value];
      Scan(rules, nullable, p, soFar) <==> Scan(rules, nullable, q, soFar')
  {
    PlaceAfter(rules, p);
    var r := rules[p.rule];
    assert WellFormedRule(r, |rules|);
    forall a: nat | p.at < a && StartsAlternate(r, a) ensures q.at < a {
      if a <= q.at && OpensSet(r[p.at]) {
        NoAlternateInSet(r, p.at, |rules|, a);
      }
    }
  }

  /** Whether some alternate of rule `id` is made of flagged references only. */
  method HasFlaggedAlternate(rules: Rules, nullable: seq<bool>, id: nat) returns (found: bool)
    requires WellFormed(rules) && |nullable| == |rules| && id < |rules|
    ensures found <==> SomeFlagged(rules, nullable, id)
  {
    var p := Pos(id, 0);
    var altNullable := true;
    AlternateIsPlace(rules, id, 0);
    while true
      invariant IsPlace(rules, p) && p.rule == id
      invariant SomeFlagged(rules, nullable, id) <==> Scan(rules, nullable, p, altNullable)
      decreases |rules[id]| - p.at
    {
      var e := Elem(rules, p);
      if e.kind == End || e.kind == Alt {
        ScanAtEnd(rules, nullable, p, altNullable);
        if altNullable {
          return true;
        }
        if e.kind == End {
          return false;
        }
        p := Next(p);
        altNullable := true;
      } else if e.kind == RuleRef {
        ScanAtSymbol(rules, nullable, p, altNullable, Next(p));
        altNullable := altNullable && nullable[e.value];
        p := Next(p);
      } else {
        assert WellFormedRule(rules[id], |rules|);
        ScanAtSymbol(rules, nullable, p, altNullable, PastSet(rules, p));
        var next := SkipSymbol(rules[id], p.at, |rules|);
        altNullable := false;
        p := Pos(id, next);
      }
    }
  }

  function Unflagged(nullable: seq<bool>): nat {
    if nullable == [] then 0 else Unflagged(nullable[1..]) + (if nullable[0] then 0 else 1)
  }

  lemma {:induction false} FlagOne(nullable: seq<bool>, id: nat)
    requires id < |nullable| && !nullable[id]
    ensures Unflagged(nullable[id := true]) == Unflagged(nullable) - 1
  {
    if id > 0 {
      FlagOne(nullable[1..], id - 1);
      assert nullable[id := true][1..] == nullable[1..][id - 1 := true];
    } else {
      assert nullable[0 := true][1..] == nullable[1..];
    }
  }

  lemma SoundStep(rules: Rules, nullable: seq<bool>, id: nat)
    requires WellFormed(rules) && Sound(rules, nullable) && id < |rules| && SomeFlagged(rules, nullable, id)
    ensures Sound(rules, nullable[id := true])
  {
    var a: nat :| StartsAlternate(rules[id], a) && Flagged(rules, nullable, Pos(id, a));
    AlternateIsPlace(rules, id, a);
    FlaggedIsNullable(rules, nullable, Pos(id, a));
  }

  /** Flags rules until a whole pass adds none. */
  method NullableRules(rules: Rules) returns (nullable: seq<bool>)
    requires WellFormed(rules)
    ensures MarksNullable(rules, nullable)
  {
    nullable := seq(|rules|, _ => false);
    var changed := true;
    while changed
      invariant Sound(rules, nullable)
      invariant !changed ==> forall id :: 0 <= id < |rules| && SomeFlagged(rules, nullable, id) ==> nullable[id]
      decreases Unflagged(nullable), changed
    {
      changed := false;
      ghost var before := Unflagged(nullable);
      for id := 0 to |rules|
        invariant Sound(rules, nullable)
        invariant if changed then Unflagged(nullable) < before else Unflagged(nullable) == before
        invariant !changed ==> forall j :: 0 <= j < id && SomeFlagged(rules, nullable, j) ==> nullable[j]
      {
        if nullable[id] {
          continue;
        }
        var found := HasFlaggedAlternate(rules, nullable, id);
        if found {
          SoundStep(rules, nullable, id);
          FlagOne(nullable, id);
          nullable := nullable[id := true];
          changed := true;
        }
      }
    }
    FixpointIsExact(rules, nullable);
  }
}
