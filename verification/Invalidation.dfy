/** Which hypotheses an assignment may leave (absinterp.cc, PExpr.cc): the search for the
    assigned l-value overlooks names, and exactly then a hypothesis may outlive its truth. */
module Invalidation {
  import opened PExprs
  import opened Polarity
  import opened FlowStatements
  import opened Counting
  import opened AbsInterp

  /** If the hypothesis holds and is left by an assignment to the l-value, it still holds
      when the assigned name has another value. */
  ghost predicate Survives(I: Interp<int>, h: PExpr, lval: PExpr, s: Store, v: int)
    requires lval.PEIdent?
  {
    Satisfies(I, s, {h}) ==> Satisfies(I, s[lval.name := v], Kept({h}, lval))
  }

  /** Invalidation for an l-value is sound for a hypothesis whatever the operators mean. */
  ghost predicate InvalidationSound(h: PExpr, lval: PExpr)
    requires lval.PEIdent?
  {
    forall I, s: Store, v | TwoValued(I) :: Survives(I, h, lval, s, v)
  }

  /** The name is not in the hypothesis, or the l-value is found there. */
  predicate Noticed(h: PExpr, lval: PExpr)
    requires lval.PEIdent?
  {
    lval.name in Names(h) ==> Contains(h, lval)
  }

  /** Any hypothesis is safe to keep for an l-value that is noticed. */
  lemma InvalidationSafe(h: PExpr, lval: PExpr)
    requires lval.PEIdent? && Noticed(h, lval)
    ensures InvalidationSound(h, lval)
  {
    forall I, s: Store, v | TwoValued(I)
      ensures Survives(I, h, lval, s, v)
    {
      if lval.name !in Names(h) && Satisfies(I, s, {h}) {
        assert Holds(I, h, s);
        EvalAgrees(I, h, s, s[lval.name := v]);
      }
    }
  }

  // Names and equalities.

  /** A name alone is noticed when it is assigned, and not when a part of it is. */
  lemma NameExact(x: string, lval: PExpr)
    requires lval.PEIdent?
    ensures InvalidationSound(Ident(x), lval) <==> Noticed(Ident(x), lval)
    ensures Noticed(Ident(x), lval) <==> lval.name != x || lval == Ident(x)
  {
    assert Names(Ident(x)) == {x} by { assert IndexNames([]) == {}; }
    if Noticed(Ident(x), lval) {
      InvalidationSafe(Ident(x), lval);
    } else {
      var I := SummingInterp();
      SummingTwoValued();
      var s: Store := map[x := 1];
      assert Holds(I, Ident(x), s) && !Holds(I, Ident(x), s[x := 0]);
      assert Ident(x) in Kept({Ident(x)}, lval) && !Survives(I, Ident(x), lval, s, 0);
    }
  }

  /** For an equality y == e without condition operators. Where e is a name or a number,
      as declared names make it, only assignments to parts go unnoticed. */
  lemma EqualityExact(y: string, e: PExpr, lval: PExpr)
    requires Free(e) && y !in Names(e) && lval.PEIdent?
    ensures var h := PEBinary('e', Ident(y), e);
            InvalidationSound(h, lval) <==> Noticed(h, lval)
  {
    var h, x := PEBinary('e', Ident(y), e), lval.name;
    if !Noticed(h, lval) {
      var I := CountingInterp(true);
      CountingTwoValued();
      var zero: Store := map[];
      Exceeds(e, zero, y);
      var s := zero[y := Eval(I, e, zero)];
      EvalAgrees(I, e, zero, s);
      assert I.binary('e', Eval(I, Ident(y), s), Eval(I, e, s)) == 1;
      assert Satisfies(I, s, {h});
      assert Names(Ident(y)) == {y} by { assert IndexNames([]) == {}; }
      var n := Lookup(I, s, x) + 1;
      Raise(true, e, s, x, n);
      var s' := s[x := n];
      if x == y {
        EvalAgrees(I, e, s, s');
      }
      assert Eval(I, Ident(y), s') != Eval(I, e, s');
      assert h in Kept({h}, lval) && !Holds(I, h, s');
      assert !Survives(I, h, lval, s, n);
    } else {
      InvalidationSafe(h, lval);
    }
  }

  // Negations.

  /** A negation of anything without condition operators, or of such a negation. */
  predicate NotChain(h: PExpr) {
    h.PEUnary? && h.op == 'N' && (Free(h.expr) || NotChain(h.expr))
  }

  /** A conjunction of negations. */
  predicate Nots(h: PExpr) {
    match h
    case PEUnary(op, e) => op == 'N' && Free(e)
    case PEBinary(op, l, r) => op == 'a' && Nots(l) && Nots(r)
    case _ => false
  }

  /** A chain of negations holds with the name at 0 or with it at 1, but not with both. */
  lemma {:induction false} ChainFlips(h: PExpr, x: string)
    requires NotChain(h) && x in Names(h)
    ensures var I := SummingInterp(); Holds(I, h, map[x := 0]) <==> !Holds(I, h, map[x := 1])
  {
    if Free(h.expr) {
      SumsZero(h.expr, map[x := 0]);
      SumsZero(h.expr, map[x := 1]);
      assert ZeroOn(Names(h.expr), map[x := 0]) && !ZeroOn(Names(h.expr), map[x := 1]);
    } else {
      ChainFlips(h.expr, x);
    }
  }

  /** A conjunction of negations holds with all names at 0, and not with one of them at 1. */
  lemma {:induction false} NotsFlip(h: PExpr, x: string)
    requires Nots(h)
    ensures var I := SummingInterp();
            Holds(I, h, map[x := 0]) && (x in Names(h) ==> !Holds(I, h, map[x := 1]))
  {
    match h
    case PEUnary(_, e) =>
      SumsZero(e, map[x := 0]);
      SumsZero(e, map[x := 1]);
      assert ZeroOn(Names(e), map[x := 0]);
    case PEBinary(_, l, r) =>
      NotsFlip(l, x);
      NotsFlip(r, x);
      SummingTwoValued();
      ConnectiveTruth(SummingInterp(), 'a', h, map[x := 0]);
      ConnectiveTruth(SummingInterp(), 'a', h, map[x := 1]);
  }

  /** For the negations that a branch leaves, an assignment to a name or to a part of it
      is dealt with soundly if and only if it is noticed. */
  lemma NotExact(h: PExpr, lval: PExpr)
    requires (NotChain(h) || Nots(h)) && lval.PEIdent?
    ensures InvalidationSound(h, lval) <==> Noticed(h, lval)
  {
    var x := lval.name;
    if Noticed(h, lval) {
      InvalidationSafe(h, lval);
    } else {
      var I := SummingInterp();
      SummingTwoValued();
      if NotChain(h) {
        ChainFlips(h, x);
      } else {
        NotsFlip(h, x);
      }
      var low, high: Store := map[x := 0], map[x := 1];
      assert low[x := 1] == high && high[x := 0] == low && h in Kept({h}, lval);
      if Holds(I, h, low) {
        assert !Survives(I, h, lval, low, 1);
      } else {
        assert !Survives(I, h, lval, high, 0);
      }
    }
  }

  /** For a whole name: it is noticed if the search sees one of its occurrences. */
  lemma NotExactForNames(h: PExpr, x: string)
    requires NotChain(h) || Nots(h)
    ensures InvalidationSound(h, Ident(x)) <==> (x in Names(h) ==> x in Visible(h))
  {
    NotExact(h, Ident(x));
    ContainsVisible(h, x);
  }

  /** In `if (~|{x, a}) x = b;` the branch adds its condition, whatever the set of
      expressions, and the assignment leaves it although it makes it false. */
  lemma NotOverlooked(dep: set<PExpr>)
    ensures var cond := PEUnary('N', PEConcat([Ident("x"), Ident("a")], None));
            var assign := Assign("x", Ident("b"));
            var I, s := SummingInterp(), map["x" := 0, "a" := 0, "b" := 1];
            && ToWellformed(cond, dep) == Some(cond)
            && cond in Analyze(dep, assign, AfterBranch(dep, Condit(cond, Some(assign), None), true, {}))
            && TwoValued(I) && Holds(I, cond, s) && !Holds(I, cond, Exec(I, assign, s))
  {
    var parms := [Ident("x"), Ident("a")];
    var cond, assign := PEUnary('N', PEConcat(parms, None)), Assign("x", Ident("b"));
    var I, s := SummingInterp(), map["x" := 0, "a" := 0, "b" := 1];
    SummingTwoValued();
    assert AfterBranch(dep, Condit(cond, Some(assign), None), true, {}) == {cond};
    var s' := Exec(I, assign, s);
    assert s' == s["x" := 1];
    assert parms[1..] == [Ident("a")] && parms[1..][1..] == [];
    ConcatOfTwo(s, "x", "a");
    ConcatOfTwo(s', "x", "a");
  }

  lemma ConcatOfTwo(s: Store, x: string, y: string)
    ensures var I := SummingInterp();
            Eval(I, PEConcat([Ident(x), Ident(y)], None), s) == Lookup(I, s, x) + Lookup(I, s, y)
  {
    var I, parms := SummingInterp(), [Ident(x), Ident(y)];
    assert parms[1..] == [Ident(y)] && parms[1..][1..] == [];
    assert EvalAll(I, parms[1..], s) == [Lookup(I, s, y)];
    assert EvalAll(I, parms, s) == [Lookup(I, s, x), Lookup(I, s, y)];
    SumTwo(Lookup(I, s, x), Lookup(I, s, y));
    assert Sum([]) == 0;
  }

  /** In `if (~|x) x[0] = b;` the condition is left as well: an assignment to a bit is
      searched for as such. */
  lemma PartOverlooked(dep: set<PExpr>)
    ensures var cond, bit := PEUnary('N', Ident("x")), PEIdent("x", [SelBit(PENumber([]))]);
            && ToWellformed(cond, dep) == Some(cond)
            && cond in Kept({cond}, bit) && !InvalidationSound(cond, bit)
  {
    var cond, bit := PEUnary('N', Ident("x")), PEIdent("x", [SelBit(PENumber([]))]);
    assert "x" in Names(Ident("x"));
    NotExact(cond, bit);
  }
}
