/** The analysis with the sets of expressions that are collected for it (typecheck.cc):
    declared names and nothing else. */
module DeclaredDeps {
  import opened PExprs
  import opened Polarity
  import opened FlowStatements
  import opened Counting
  import opened AbsInterp

  predicate Bare(dep: set<PExpr>) {
    forall e <- dep :: e.PEIdent? && e.index == []
  }

  lemma IdentTransparent(x: string)
    ensures Names(Ident(x)) == {x} && Transparent(Ident(x))
  {
    assert IndexNames([]) == {};
  }

  /** Every assignment is safe to record. */
  lemma BareSafeAssign(dep: set<PExpr>, x: string, e: PExpr)
    requires Bare(dep)
    ensures SafeAssign(dep, x, e)
  {
    if Records(dep, x, e) && e in dep {
      assert e == Ident(e.name);
      IdentTransparent(e.name);
    }
  }

  /** The search sees every name beneath a negation, and none is assigned in parts. */
  predicate NotsSeen(e: PExpr, parts: set<string>) {
    match e
    case PEUnary(op, _) => op == 'N' ==> Transparent(e) && Names(e) !! parts
    case PEBinary(_, l, r) => NotsSeen(l, parts) && NotsSeen(r, parts)
    case _ => true
  }

  /** No name assigned in parts is collected. */
  predicate Uncollected(dep: set<PExpr>, parts: set<string>) {
    forall x <- parts :: Ident(x) !in dep
  }

  /** What a branch adds has overlooked names, and names assigned in parts, beneath
      negations only. */
  lemma {:induction false} BareTraceable(dep: set<PExpr>, parts: set<string>, e: PExpr)
    requires Bare(dep) && Uncollected(dep, parts) && NotsSeen(e, parts)
    ensures TraceableOpt(ToWellformed(e, dep), parts)
    ensures TraceableOpt(NegToWellformed(e, dep), parts)
  {
    match e
    case PEIdent(x, _) =>
      if e in dep {
        assert e == Ident(x);
        IdentTransparent(x);
      }
    case PEBinary(_, l, r) =>
      BareTraceable(dep, parts, l);
      BareTraceable(dep, parts, r);
    case _ =>
  }

  /** No connective beneath a comparison, and nothing untraceable beneath a negation. */
  predicate PlainCondition(e: PExpr, parts: set<string>) {
    FlatComparisons(e) && NotsSeen(e, parts)
  }

  /** All conditions are plain, and the names assigned in parts are among `parts`. */
  predicate PlainTree(st: Stmt, parts: set<string>)
    decreases st
  {
    match st
    case Assign(_, _) => true
    case AssignPart(x, index, _) => x in parts && index != []
    case AssignNB(_, _) => true
    case Block(list) => forall i | 0 <= i < |list| :: PlainTree(list[i], parts)
    case Condit(e, if_, else_) =>
      && PlainCondition(e, parts)
      && (if_.Some? ==> PlainTree(if_.value, parts))
      && (else_.Some? ==> PlainTree(else_.value, parts))
  }

  lemma {:induction false} PlainSafe(dep: set<PExpr>, parts: set<string>, st: Stmt)
    requires Bare(dep) && Uncollected(dep, parts) && PlainTree(st, parts)
    ensures Safe(dep, parts, st)
    decreases st
  {
    match st
    case Assign(x, e) =>
      BareSafeAssign(dep, x, e);
      if Records(dep, x, e) && e in dep {
        assert e == Ident(e.name);
        IdentTransparent(e.name);
      }
    case AssignPart(_, _, _) =>
    case AssignNB(_, _) =>
    case Block(list) =>
      forall i | 0 <= i < |list| ensures Safe(dep, parts, list[i]) {
        PlainSafe(dep, parts, list[i]);
      }
    case Condit(e, if_, else_) =>
      FlatKeepsOperands(e, dep);
      BareTraceable(dep, parts, e);
      if if_.Some? {
        PlainSafe(dep, parts, if_.value);
      }
      if else_.Some? {
        PlainSafe(dep, parts, else_.value);
      }
  }

  /** With declared names the analysis is sound for every tree whose conditions are plain,
      if the names assigned in parts are not collected; all other assignments are free. */
  lemma DeclaredSound(I: Interp<int>, dep: set<PExpr>, parts: set<string>, st: Stmt, H: Hypotheses, s: Store)
    requires TwoValued(I) && Bare(dep) && Uncollected(dep, parts) && PlainTree(st, parts)
    requires Traceable(H, parts) && Satisfies(I, s, H)
    ensures Traceable(Analyze(dep, st, H), parts)
    ensures Satisfies(I, Exec(I, st, s), Analyze(dep, st, H))
  {
    PlainSafe(dep, parts, st);
    AnalysisSound(I, dep, parts, st, H, s);
  }
}
