/** The path-predicate analysis (absinterp.cc and the statement driver in typecheck.cc). */
module AbsInterp {
  import opened PExprs
  import opened Polarity
  import opened FlowStatements
  import opened Counting

  function Ident(x: string): PExpr {
    PEIdent(x, [])
  }

  /** Whether a hypothesis is taken to mention a name: only the operands of unary and
      binary operators are searched. */
  predicate Contains(e: PExpr, that: PExpr) {
    match e
    case PEUnary(_, a) => Contains(a, that)
    case PEBinary(_, l, r) => Contains(l, that) || Contains(r, that)
    case _ => e == that
  }

  /** The names that search can find. */
  function Visible(e: PExpr): set<string> {
    match e
    case PEIdent(x, index) => if index == [] then {x} else {}
    case PEUnary(_, a) => Visible(a)
    case PEBinary(_, l, r) => Visible(l) + Visible(r)
    case _ => {}
  }

  lemma {:induction false} ContainsVisible(e: PExpr, x: string)
    ensures Contains(e, Ident(x)) <==> x in Visible(e)
    ensures Visible(e) <= Names(e)
  {
    match e
    case PEUnary(_, a) => ContainsVisible(a, x);
    case PEBinary(_, l, r) => ContainsVisible(l, x); ContainsVisible(r, x);
    case _ =>
  }

  /** Every name in the expression is found. */
  predicate Transparent(e: PExpr) {
    Names(e) <= Visible(e)
  }

  lemma EqualityTransparent(x: string, e: PExpr)
    requires Transparent(e)
    ensures Transparent(PEBinary('e', Ident(x), e))
  {
    assert Names(Ident(x)) == {x};
  }

  type Hypotheses = set<PExpr>

  /** What an assignment to an l-value leaves; l-values are compared by their texts. */
  function Kept(H: Hypotheses, lval: PExpr): Hypotheses {
    set h <- H | !Contains(h, lval)
  }

  function Invalidated(H: Hypotheses, x: string): Hypotheses {
    Kept(H, Ident(x))
  }

  /** Whether an assignment leaves an equality behind. */
  predicate RecordsLval(dep: set<PExpr>, lval: PExpr, e: PExpr) {
    (e.PENumber? || e in dep) && lval in dep
  }

  predicate Records(dep: set<PExpr>, x: string, e: PExpr) {
    RecordsLval(dep, Ident(x), e)
  }

  function AfterLval(dep: set<PExpr>, lval: PExpr, e: PExpr, H: Hypotheses): Hypotheses {
    Kept(H, lval) + if RecordsLval(dep, lval, e) then {PEBinary('e', lval, e)} else {}
  }

  function AfterAssign(dep: set<PExpr>, x: string, e: PExpr, H: Hypotheses): Hypotheses {
    AfterLval(dep, Ident(x), e, H)
  }

  /** What a branch adds; with the if branch missing the true side is given the
      hypothesis of the else branch. */
  function AfterBranch(dep: set<PExpr>, st: Stmt, isTrue: bool, H: Hypotheses): Hypotheses
    requires st.Condit?
  {
    if isTrue && st.if_.Some? then
      if IsWellformed(st.expr, dep) then H + {ToWellformed(st.expr, dep).value} else H
    else if st.else_.Some? then
      if IsNegWellformed(st.expr, dep) then H + {PEUnary('N', NegToWellformed(st.expr, dep).value)} else H
    else H
  }

  /** The hypotheses after a statement, with exact intersections at the joins. */
  function Analyze(dep: set<PExpr>, st: Stmt, H: Hypotheses): Hypotheses
    decreases st
  {
    match st
    case Assign(x, e) => AfterAssign(dep, x, e, H)
    case AssignPart(x, index, e) => AfterLval(dep, PEIdent(x, index), e, H)
    case AssignNB(_, _) => H
    case Block(list) => AnalyzeList(dep, list, H)
    case Condit(_, if_, else_) =>
      var afterIf := if if_.Some? then Analyze(dep, if_.value, AfterBranch(dep, st, true, H)) else H;
      var afterElse := if else_.Some? then Analyze(dep, else_.value, AfterBranch(dep, st, false, H)) else H;
      afterIf * afterElse
  }

  function AnalyzeList(dep: set<PExpr>, list: seq<Stmt>, H: Hypotheses): Hypotheses
    decreases list
  {
    if list == [] then H else AnalyzeList(dep, list[1..], Analyze(dep, list[0], H))
  }

  ghost predicate Satisfies(I: Interp<int>, s: Store, H: Hypotheses) {
    forall h <- H :: Holds(I, h, s)
  }

  /** All names of the hypotheses can be found again, and none is assigned in parts. */
  predicate Traceable(H: Hypotheses, parts: set<string>) {
    forall h <- H :: Transparent(h) && Names(h) !! parts
  }

  predicate TraceableOpt(h: Option<PExpr>, parts: set<string>) {
    h.Some? ==> Transparent(h.value) && Names(h.value) !! parts
  }

  /** An assignment is sound to record unless the right-hand side mentions the left-hand
      side without being it, and its names can be found again. */
  predicate SafeAssign(dep: set<PExpr>, x: string, e: PExpr) {
    Records(dep, x, e) ==> Transparent(e) && (x in Names(e) ==> e == Ident(x))
  }

  predicate SafeCondition(dep: set<PExpr>, parts: set<string>, e: PExpr) {
    && KeepsOperands(e, dep)
    && TraceableOpt(ToWellformed(e, dep), parts)
    && TraceableOpt(NegToWellformed(e, dep), parts)
  }

  /** The names assigned in parts are among `parts`, and nothing is recorded of them. */
  predicate Safe(dep: set<PExpr>, parts: set<string>, st: Stmt)
    decreases st
  {
    match st
    case Assign(x, e) => SafeAssign(dep, x, e) && (Records(dep, x, e) ==> {x} + Names(e) !! parts)
    case AssignPart(x, index, _) => x in parts && PEIdent(x, index) !in dep
    case AssignNB(_, _) => true
    case Block(list) => forall i | 0 <= i < |list| :: Safe(dep, parts, list[i])
    case Condit(e, if_, else_) =>
      && SafeCondition(dep, parts, e)
      && (if_.Some? ==> Safe(dep, parts, if_.value))
      && (else_.Some? ==> Safe(dep, parts, else_.value))
  }

  /** Hypotheses that survive invalidation do not depend on the assigned name. */
  lemma InvalidatedSound(I: Interp<int>, H: Hypotheses, parts: set<string>, x: string, v: int, s: Store)
    requires Traceable(H, parts) && Satisfies(I, s, H)
    ensures Satisfies(I, s[x := v], Invalidated(H, x))
  {
    forall h | h in Invalidated(H, x) ensures Holds(I, h, s[x := v]) {
      ContainsVisible(h, x);
      EvalAgrees(I, h, s, s[x := v]);
    }
  }

  lemma AssignSound(I: Interp<int>, dep: set<PExpr>, parts: set<string>, x: string, e: PExpr, H: Hypotheses, s: Store)
    requires TwoValued(I) && Safe(dep, parts, Assign(x, e))
    requires Traceable(H, parts) && Satisfies(I, s, H)
    ensures Traceable(AfterAssign(dep, x, e, H), parts)
    ensures Satisfies(I, s[x := Eval(I, e, s)], AfterAssign(dep, x, e, H))
  {
    var s' := s[x := Eval(I, e, s)];
    InvalidatedSound(I, H, parts, x, Eval(I, e, s), s);
    assert Names(Ident(x)) == {x} by { assert IndexNames([]) == {}; }
    if Records(dep, x, e) {
      if x !in Names(e) {
        EvalAgrees(I, e, s, s');
      }
      var h := PEBinary('e', Ident(x), e);
      var l, r := Eval(I, Ident(x), s'), Eval(I, e, s');
      assert l == r && I.binary('e', l, r) == 1;
      EqualityTransparent(x, e);
      assert Holds(I, h, s');
    }
  }

  /** An assignment to a part: no hypothesis is about the name. */
  lemma PartSound(I: Interp<int>, dep: set<PExpr>, parts: set<string>, x: string, index: seq<Sel>, e: PExpr,
                  H: Hypotheses, s: Store)
    requires Safe(dep, parts, AssignPart(x, index, e))
    requires Traceable(H, parts) && Satisfies(I, s, H)
    ensures var st := AssignPart(x, index, e);
            Traceable(Analyze(dep, st, H), parts) && Satisfies(I, Exec(I, st, s), Analyze(dep, st, H))
  {
    var s' := Exec(I, AssignPart(x, index, e), s);
    forall h | h in H ensures Holds(I, h, s') {
      assert Holds(I, h, s) && x !in Names(h);
      EvalAgrees(I, h, s, s');
    }
  }

  lemma BranchSound(I: Interp<int>, dep: set<PExpr>, parts: set<string>, st: Stmt, H: Hypotheses, s: Store)
    requires st.Condit? && TwoValued(I) && SafeCondition(dep, parts, st.expr)
    requires Traceable(H, parts) && Satisfies(I, s, H)
    ensures Traceable(AfterBranch(dep, st, true, H), parts) && Traceable(AfterBranch(dep, st, false, H), parts)
    ensures st.if_.Some? && Holds(I, st.expr, s) ==> Satisfies(I, s, AfterBranch(dep, st, true, H))
    ensures st.else_.Some? && !Holds(I, st.expr, s) ==> Satisfies(I, s, AfterBranch(dep, st, false, H))
  {
    TwoSided(I, st.expr, dep, s);
    if IsNegWellformed(st.expr, dep) {
      var w := NegToWellformed(st.expr, dep).value;
      var v := Eval(I, w, s);
      assert I.unary('N', v) == if v == 0 then 1 else 0;
      assert Eval(I, PEUnary('N', w), s) == I.unary('N', v);
    }
  }

  /** Soundness over all runs: a store that satisfies the hypotheses before a statement
      satisfies those left after it. */
  lemma {:induction false} AnalysisSound(I: Interp<int>, dep: set<PExpr>, parts: set<string>, st: Stmt,
                                         H: Hypotheses, s: Store)
    requires TwoValued(I) && Safe(dep, parts, st)
    requires Traceable(H, parts) && Satisfies(I, s, H)
    ensures Traceable(Analyze(dep, st, H), parts)
    ensures Satisfies(I, Exec(I, st, s), Analyze(dep, st, H))
    decreases st
  {
    match st
    case Assign(x, e) => AssignSound(I, dep, parts, x, e, H, s);
    case AssignPart(x, index, e) => PartSound(I, dep, parts, x, index, e, H, s);
    case AssignNB(_, _) =>
    case Block(list) => ListSound(I, dep, parts, list, H, s);
    case Condit(e, if_, else_) =>
      BranchSound(I, dep, parts, st, H, s);
      if if_.Some? {
        TransparencyKept(dep, parts, if_.value, AfterBranch(dep, st, true, H));
        if Holds(I, e, s) {
          AnalysisSound(I, dep, parts, if_.value, AfterBranch(dep, st, true, H), s);
        }
      }
      if else_.Some? {
        TransparencyKept(dep, parts, else_.value, AfterBranch(dep, st, false, H));
        if !Holds(I, e, s) {
          AnalysisSound(I, dep, parts, else_.value, AfterBranch(dep, st, false, H), s);
        }
      }
  }

  lemma {:induction false} ListSound(I: Interp<int>, dep: set<PExpr>, parts: set<string>, list: seq<Stmt>,
                                     H: Hypotheses, s: Store)
    requires TwoValued(I) && forall i | 0 <= i < |list| :: Safe(dep, parts, list[i])
    requires Traceable(H, parts) && Satisfies(I, s, H)
    ensures Traceable(AnalyzeList(dep, list, H), parts)
    ensures Satisfies(I, ExecList(I, list, s), AnalyzeList(dep, list, H))
    decreases list
  {
    if list != [] {
      AnalysisSound(I, dep, parts, list[0], H, s);
      ListSound(I, dep, parts, list[1..], Analyze(dep, list[0], H), Exec(I, list[0], s));
    }
  }

  /** The analysis adds only hypotheses that can be found again and are not about names
      assigned in parts. */
  lemma {:induction false} TransparencyKept(dep: set<PExpr>, parts: set<string>, st: Stmt, H: Hypotheses)
    requires Safe(dep, parts, st) && Traceable(H, parts)
    ensures Traceable(Analyze(dep, st, H), parts)
    decreases st
  {
    match st
    case Assign(x, e) =>
      if Records(dep, x, e) {
        EqualityTransparent(x, e);
        assert Names(Ident(x)) == {x} by { assert IndexNames([]) == {}; }
      }
    case AssignPart(_, _, _) =>
    case AssignNB(_, _) =>
    case Block(list) => ListTransparent(dep, parts, list, H);
    case Condit(e, if_, else_) =>
      if if_.Some? {
        TransparencyKept(dep, parts, if_.value, AfterBranch(dep, st, true, H));
      } else if else_.Some? {
        TransparencyKept(dep, parts, else_.value, AfterBranch(dep, st, false, H));
      }
  }

  lemma {:induction false} ListTransparent(dep: set<PExpr>, parts: set<string>, list: seq<Stmt>, H: Hypotheses)
    requires (forall i | 0 <= i < |list| :: Safe(dep, parts, list[i])) && Traceable(H, parts)
    ensures Traceable(AnalyzeList(dep, list, H), parts)
    decreases list
  {
    if list != [] {
      TransparencyKept(dep, parts, list[0], H);
      ListTransparent(dep, parts, list[1..], Analyze(dep, list[0], H));
    }
  }

  /** More hypotheses before, more after. */
  lemma {:induction false} AnalyzeMonotone(dep: set<PExpr>, st: Stmt, H: Hypotheses, H': Hypotheses)
    requires H <= H'
    ensures Analyze(dep, st, H) <= Analyze(dep, st, H')
    decreases st
  {
    match st
    case Assign(_, _) =>
    case AssignPart(_, _, _) =>
    case AssignNB(_, _) =>
    case Block(list) => AnalyzeListMonotone(dep, list, H, H');
    case Condit(_, if_, else_) =>
      if if_.Some? {
        AnalyzeMonotone(dep, if_.value, AfterBranch(dep, st, true, H), AfterBranch(dep, st, true, H'));
      }
      if else_.Some? {
        AnalyzeMonotone(dep, else_.value, AfterBranch(dep, st, false, H), AfterBranch(dep, st, false, H'));
      }
  }

  lemma {:induction false} AnalyzeListMonotone(dep: set<PExpr>, list: seq<Stmt>, H: Hypotheses, H': Hypotheses)
    requires H <= H'
    ensures AnalyzeList(dep, list, H) <= AnalyzeList(dep, list, H')
    decreases list
  {
    if list != [] {
      AnalyzeMonotone(dep, list[0], H, H');
      AnalyzeListMonotone(dep, list[1..], Analyze(dep, list[0], H), Analyze(dep, list[0], H'));
    }
  }

  /** Recording an assignment is sound whatever the operators mean. */
  ghost predicate RecordingSound(dep: set<PExpr>, x: string, e: PExpr) {
    forall I, s | TwoValued(I) :: Satisfies(I, s[x := Eval(I, e, s)], AfterAssign(dep, x, e, {}))
  }

  /** Recording the equality is sound for every right-hand side that does not mention the
      left-hand side, or is it. */
  lemma RecordingSafe(dep: set<PExpr>, x: string, e: PExpr)
    requires Records(dep, x, e) ==> x !in Names(e) || e == Ident(x)
    ensures RecordingSound(dep, x, e)
  {
    forall I, s | TwoValued(I)
      ensures Satisfies(I, s[x := Eval(I, e, s)], AfterAssign(dep, x, e, {}))
    {
      var s' := s[x := Eval(I, e, s)];
      if Records(dep, x, e) {
        if x !in Names(e) {
          EvalAgrees(I, e, s, s');
        }
        var l, r := Eval(I, Ident(x), s'), Eval(I, e, s');
        assert l == r && I.binary('e', l, r) == 1;
      }
    }
  }

  /** The limit for arbitrary sets of expressions: for a right-hand side without condition
      operators, recording the equality is sound if and only if the right-hand side does
      not mention the left-hand side, or is it. */
  lemma RecordingExact(dep: set<PExpr>, x: string, e: PExpr)
    requires Free(e)
    ensures RecordingSound(dep, x, e) <==>
            (Records(dep, x, e) ==> x !in Names(e) || e == Ident(x))
  {
    if Records(dep, x, e) && x in Names(e) && e != Ident(x) {
      var I := CountingInterp(true);
      CountingTwoValued();
      var s: Store := map[];
      Exceeds(e, s, x);
      var s' := s[x := Eval(I, e, s)];
      Exceeds(e, s', x);
      var h := PEBinary('e', Ident(x), e);
      assert Eval(I, Ident(x), s') < Eval(I, e, s');
      assert !Holds(I, h, s');
      assert h in AfterAssign(dep, x, e, {});
      assert !Satisfies(I, s', AfterAssign(dep, x, e, {}));
    } else {
      RecordingSafe(dep, x, e);
    }
  }
}
