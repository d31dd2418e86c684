/** The analysis as it is carried out: a predicate whose hypotheses are erased and
    inserted in place, and the merge of two of them. */
module PredicateState {
  import opened PExprs
  import opened Polarity
  import opened FlowStatements
  import opened AbsInterp
  import opened Counting

  type Order = (PExpr, PExpr) -> bool

  /** A strict total order on names. */
  ghost predicate StrictTotal(less: Order) {
    && (forall x :: !less(x, x))
    && (forall x, y, z :: less(x, y) && less(y, z) ==> less(x, z))
    && (forall x, y :: x != y ==> less(x, y) || less(y, x))
  }

  ghost predicate Sorted(less: Order, a: seq<PExpr>) {
    forall i, j | 0 <= i < j < |a| :: !less(a[j], a[i])
  }

  /** The library intersection of two ranges. The hypotheses are kept in the order of
      their addresses but compared by name, so the ranges need not be sorted. */
  function Intersection(less: Order, a: seq<PExpr>, b: seq<PExpr>): seq<PExpr>
    decreases |a| + |b|
  {
    if a == [] || b == [] then []
    else if less(a[0], b[0]) then Intersection(less, a[1..], b)
    else if less(b[0], a[0]) then Intersection(less, a, b[1..])
    else [a[0]] + Intersection(less, a[1..], b[1..])
  }

  lemma SplitFirst(a: seq<PExpr>)
    requires a != []
    ensures multiset(a) == multiset{a[0]} + multiset(a[1..])
  {
    assert a == [a[0]] + a[1..];
  }

  /** In any order, the result holds common hypotheses only. */
  lemma {:induction false} IntersectionSound(less: Order, a: seq<PExpr>, b: seq<PExpr>)
    requires StrictTotal(less)
    ensures multiset(Intersection(less, a, b)) <= multiset(a) * multiset(b)
    decreases |a| + |b|
  {
    if a != [] && b != [] {
      SplitFirst(a);
      SplitFirst(b);
      if less(a[0], b[0]) {
        IntersectionSound(less, a[1..], b);
      } else if less(b[0], a[0]) {
        IntersectionSound(less, a, b[1..]);
      } else {
        IntersectionSound(less, a[1..], b[1..]);
      }
    }
  }

  /** Everything common is found, as often as it is common. */
  ghost predicate FindsCommon(less: Order, a: seq<PExpr>, b: seq<PExpr>) {
    multiset(Intersection(less, a, b)) == multiset(a) * multiset(b)
  }

  lemma LeastAbsent(less: Order, x: PExpr, b: seq<PExpr>)
    requires StrictTotal(less) && Sorted(less, b) && b != [] && less(x, b[0])
    ensures x !in multiset(b)
  {
    forall k | 0 <= k < |b| ensures b[k] != x {
      if k > 0 {
        assert !less(b[k], b[0]);
      }
    }
  }

  /** On sorted ranges it holds all of them. */
  lemma {:induction false} IntersectionComplete(less: Order, a: seq<PExpr>, b: seq<PExpr>)
    requires StrictTotal(less) && Sorted(less, a) && Sorted(less, b)
    ensures FindsCommon(less, a, b)
    decreases |a| + |b|
  {
    if a != [] && b != [] {
      SplitFirst(a);
      SplitFirst(b);
      if less(a[0], b[0]) {
        LeastAbsent(less, a[0], b);
        IntersectionComplete(less, a[1..], b);
      } else if less(b[0], a[0]) {
        LeastAbsent(less, b[0], a);
        IntersectionComplete(less, a, b[1..]);
      } else {
        IntersectionComplete(less, a[1..], b[1..]);
      }
    }
  }

  function Copies(q: PExpr, n: nat): (r: seq<PExpr>)
    ensures |r| == n && forall i | 0 <= i < n :: r[i] == q
  {
    seq(n, _ => q)
  }

  lemma {:induction false} CountCopies(q: PExpr, b: seq<PExpr>)
    requires forall i | 0 <= i < |b| :: b[i] == q
    ensures multiset(b)[q] == |b|
  {
    if b != [] {
      SplitFirst(b);
      CountCopies(q, b[1..]);
    }
  }

  /** Behind a greater hypothesis no copy of a lesser one is found. */
  lemma {:induction false} InversionLoses(less: Order, a: seq<PExpr>, i: nat, q: PExpr, b: seq<PExpr>)
    requires StrictTotal(less) && i < |a| && less(q, a[i])
    requires forall k | 0 <= k < |b| :: b[k] == q
    ensures |Intersection(less, a, b)| <= multiset(a[..i])[q]
    decreases |a| + |b|
  {
    if b != [] {
      if less(q, a[0]) {
        InversionLoses(less, a, i, q, b[1..]);
      } else {
        assert i > 0;
        var rest := a[1..];
        assert rest[i - 1] == a[i] && a[..i] == [a[0]] + rest[..i - 1];
        assert multiset(a[..i]) == multiset{a[0]} + multiset(rest[..i - 1]);
        InversionLoses(less, rest, i - 1, q, if less(a[0], q) then b else b[1..]);
      }
    }
  }

  /** The intersection with every range that is in order finds everything common exactly
      when the range is itself in order. */
  lemma IntersectionExact(less: Order, a: seq<PExpr>)
    requires StrictTotal(less)
    ensures (forall b | Sorted(less, b) :: FindsCommon(less, a, b)) <==> Sorted(less, a)
  {
    if Sorted(less, a) {
      forall b | Sorted(less, b) ensures FindsCommon(less, a, b) {
        IntersectionComplete(less, a, b);
      }
    } else {
      var i, j :| 0 <= i < j < |a| && less(a[j], a[i]);
      var b := Copies(a[j], multiset(a)[a[j]]);
      CopiesLost(less, a, i, j, b);
      assert Sorted(less, b) && !FindsCommon(less, a, b);
    }
  }

  lemma CopiesLost(less: Order, a: seq<PExpr>, i: nat, j: nat, b: seq<PExpr>)
    requires StrictTotal(less) && i < j < |a| && less(a[j], a[i]) && b == Copies(a[j], multiset(a)[a[j]])
    ensures multiset(Intersection(less, a, b))[a[j]] < (multiset(a) * multiset(b))[a[j]]
  {
    var q, found := a[j], Intersection(less, a, b);
    CountCopies(q, b);
    InversionLoses(less, a, i, q, b);
    assert a == a[..i] + a[i..] && a[i..][j - i] == q;
    assert multiset(a) == multiset(a[..i]) + multiset(a[i..]);
    assert q in multiset(a[i..]);
    CountAtMost(found, q);
  }

  lemma {:induction false} CountAtMost(a: seq<PExpr>, q: PExpr)
    ensures multiset(a)[q] <= |a|
  {
    if a != [] {
      SplitFirst(a);
      CountAtMost(a[1..], q);
    }
  }

  /** Out of order, a hypothesis that both branches keep can be lost. */
  lemma IntersectionLoses(less: Order, p: PExpr, q: PExpr)
    requires StrictTotal(less) && less(p, q)
    ensures Intersection(less, [q, p], [p, q]) == [q]
  {
    assert [p, q][1..] == [q] && [q, p][1..] == [p] && [q][1..] == [];
    assert Intersection(less, [p], []) == [];
    assert Intersection(less, [q, p], [q]) == [q] + Intersection(less, [p], []);
  }

  /** The two cursors of the library intersection. */
  method Intersect(less: Order, a: seq<PExpr>, b: seq<PExpr>) returns (ret: seq<PExpr>)
    ensures ret == Intersection(less, a, b)
  {
    ret := [];
    var i, j := 0, 0;
    while i < |a| && j < |b|
      invariant 0 <= i <= |a| && 0 <= j <= |b|
      invariant ret + Intersection(less, a[i..], b[j..]) == Intersection(less, a, b)
      decreases |a| - i + |b| - j
    {
      assert a[i..][1..] == a[i + 1..] && b[j..][1..] == b[j + 1..];
      if less(a[i], b[j]) {
        i := i + 1;
      } else {
        if !less(b[j], a[i]) {
          ret := ret + [a[i]];
          i := i + 1;
        }
        j := j + 1;
      }
    }
  }

  function Support(hs: seq<PExpr>): Hypotheses {
    set h <- hs
  }

  // What the operations do to the hypotheses, kept in the order of their addresses.

  /** A new object has some place among the addresses of the others. */
  ghost predicate Inserted(hs: seq<PExpr>, h: PExpr, hs': seq<PExpr>) {
    exists k | 0 <= k <= |hs| :: hs' == hs[..k] + [h] + hs[k..]
  }

  lemma InsertedCounts(hs: seq<PExpr>, h: PExpr, hs': seq<PExpr>)
    requires Inserted(hs, h, hs')
    ensures multiset(hs') == multiset(hs) + multiset{h} && |hs'| == |hs| + 1
    ensures Support(hs') == Support(hs) + {h}
  {
    var k :| 0 <= k <= |hs| && hs' == hs[..k] + [h] + hs[k..];
    assert hs == hs[..k] + hs[k..];
    assert multiset(hs) == multiset(hs[..k]) + multiset(hs[k..]);
    SupportCounts(hs);
    SupportCounts(hs');
  }

  lemma SupportCounts(hs: seq<PExpr>)
    ensures forall h :: h in Support(hs) <==> h in multiset(hs)
  {
  }

  /** The hypotheses that do not contain the l-value. */
  function Without(hs: seq<PExpr>, lval: PExpr): seq<PExpr> {
    if hs == [] then []
    else (if Contains(hs[0], lval) then [] else [hs[0]]) + Without(hs[1..], lval)
  }

  lemma {:induction false} WithoutCount(hs: seq<PExpr>, lval: PExpr, h: PExpr)
    ensures multiset(Without(hs, lval))[h] == if Contains(h, lval) then 0 else multiset(hs)[h]
    ensures |Without(hs, lval)| <= |hs|
  {
    if hs != [] {
      var rest := Without(hs[1..], lval);
      SplitFirst(hs);
      WithoutCount(hs[1..], lval, h);
      assert Without(hs, lval) == if Contains(hs[0], lval) then rest else [hs[0]] + rest;
      assert multiset([hs[0]] + rest) == multiset{hs[0]} + multiset(rest);
    }
  }

  lemma WithoutExact(hs: seq<PExpr>, lval: PExpr)
    ensures forall h :: multiset(Without(hs, lval))[h] == if Contains(h, lval) then 0 else multiset(hs)[h]
    ensures Support(Without(hs, lval)) == Kept(Support(hs), lval)
    ensures |Without(hs, lval)| <= |hs|
  {
    forall h ensures multiset(Without(hs, lval))[h] == if Contains(h, lval) then 0 else multiset(hs)[h] {
      WithoutCount(hs, lval, h);
    }
    WithoutCount(hs, lval, lval);
    SupportCounts(hs);
    SupportCounts(Without(hs, lval));
  }

  /** What a walk that is at the cursor will leave. */
  function Walked(hs: seq<PExpr>, ite: nat, lval: PExpr): seq<PExpr>
    requires ite <= |hs|
  {
    hs[..ite] + Without(hs[ite..], lval)
  }

  function Erased(hs: seq<PExpr>, ite: nat): (r: seq<PExpr>)
    requires ite < |hs|
    ensures |r| == |hs| - 1
  {
    hs[..ite] + hs[ite + 1..]
  }

  /** Erasing the hypothesis at the cursor, or stepping over it, is one step of the walk. */
  lemma WalkStep(hs: seq<PExpr>, ite: nat, lval: PExpr)
    requires ite < |hs|
    ensures Contains(hs[ite], lval) ==> Walked(Erased(hs, ite), ite, lval) == Walked(hs, ite, lval)
    ensures !Contains(hs[ite], lval) ==> Walked(hs, ite + 1, lval) == Walked(hs, ite, lval)
  {
    var rest := Without(hs[ite + 1..], lval);
    assert hs[ite..][0] == hs[ite] && hs[ite..][1..] == hs[ite + 1..];
    assert Erased(hs, ite)[..ite] == hs[..ite] && Erased(hs, ite)[ite..] == hs[ite + 1..];
    assert hs[..ite + 1] == hs[..ite] + [hs[ite]];
    assert hs[..ite] + ([hs[ite]] + rest) == (hs[..ite] + [hs[ite]]) + rest;
    assert hs[..ite] + ([] + rest) == hs[..ite] + rest;
  }

  lemma WalkEnds(hs: seq<PExpr>, lval: PExpr)
    ensures Walked(hs, 0, lval) == Without(hs, lval) && Walked(hs, |hs|, lval) == hs
  {
    assert hs[0..] == hs && hs[..|hs|] == hs;
  }

  ghost predicate AssignStep(dep: set<PExpr>, lval: PExpr, e: PExpr, hs: seq<PExpr>, hs': seq<PExpr>) {
    if RecordsLval(dep, lval, e) then Inserted(Without(hs, lval), PEBinary('e', lval, e), hs')
    else hs' == Without(hs, lval)
  }

  lemma AssignCounts(dep: set<PExpr>, lval: PExpr, e: PExpr, hs: seq<PExpr>, hs': seq<PExpr>)
    requires AssignStep(dep, lval, e, hs, hs')
    ensures forall h :: multiset(hs')[h] ==
              (if Contains(h, lval) then 0 else multiset(hs)[h])
              + (if RecordsLval(dep, lval, e) && h == PEBinary('e', lval, e) then 1 else 0)
    ensures Support(hs') == AfterLval(dep, lval, e, Support(hs))
    ensures |hs'| <= |hs| + if RecordsLval(dep, lval, e) then 1 else 0
  {
    WithoutExact(hs, lval);
    if RecordsLval(dep, lval, e) {
      InsertedCounts(Without(hs, lval), PEBinary('e', lval, e), hs');
    }
  }

  /** The hypothesis says that both have the same value. */
  ghost predicate Equates(h: PExpr, l: PExpr, r: PExpr) {
    forall I, s | TwoValued(I) :: Holds(I, h, s) <==> Eval(I, l, s) == Eval(I, r, s)
  }

  /** What an assignment must leave: every hypothesis that does not contain the l-value, and
      for a number or a name of the set stored to a name of the set, that they are equal;
      and nothing else. */
  lemma AssignAdds(dep: set<PExpr>, lval: PExpr, e: PExpr, hs: seq<PExpr>, hs': seq<PExpr>)
    requires AssignStep(dep, lval, e, hs, hs')
    ensures forall h <- hs | !Contains(h, lval) :: h in hs'
    ensures lval in dep && (e.PENumber? || e in dep) ==> exists h <- hs' :: Equates(h, lval, e)
    ensures forall h <- hs' ::
              || (h in hs && !Contains(h, lval))
              || (lval in dep && (e.PENumber? || e in dep) && Equates(h, lval, e))
  {
    AssignCounts(dep, lval, e, hs, hs');
    var q := PEBinary('e', lval, e);
    forall I, s | TwoValued(I) ensures Holds(I, q, s) <==> Eval(I, lval, s) == Eval(I, e, s) {
      var x, y := Eval(I, lval, s), Eval(I, e, s);
      assert I.binary('e', x, y) == if x == y then 1 else 0;
    }
    assert Equates(q, lval, e);
    forall h | h in hs && !Contains(h, lval) ensures h in hs' {
      assert h in multiset(hs);
      assert h in multiset(hs');
    }
    if RecordsLval(dep, lval, e) {
      assert q in multiset(hs');
    }
    forall h | h in hs' ensures (h in hs && !Contains(h, lval)) || (RecordsLval(dep, lval, e) && h == q) {
      assert h in multiset(hs');
      if !(RecordsLval(dep, lval, e) && h == q) {
        assert h in multiset(hs);
      }
    }
  }

  ghost predicate BranchStep(dep: set<PExpr>, st: Stmt, isTrue: bool, hs: seq<PExpr>, hs': seq<PExpr>)
    requires st.Condit?
  {
    if isTrue && st.if_.Some? then
      if IsWellformed(st.expr, dep) then Inserted(hs, ToWellformed(st.expr, dep).value, hs') else hs' == hs
    else if st.else_.Some? && IsNegWellformed(st.expr, dep) then
      Inserted(hs, PEUnary('N', NegToWellformed(st.expr, dep).value), hs')
    else hs' == hs
  }

  lemma BranchCounts(dep: set<PExpr>, st: Stmt, isTrue: bool, hs: seq<PExpr>, hs': seq<PExpr>)
    requires st.Condit? && BranchStep(dep, st, isTrue, hs, hs')
    ensures Support(hs') == AfterBranch(dep, st, isTrue, Support(hs))
    ensures multiset(hs) <= multiset(hs') && |hs'| <= |hs| + Gain(dep, st.expr, isTrue && st.if_.Some?)
  {
    if isTrue && st.if_.Some? {
      if IsWellformed(st.expr, dep) {
        InsertedCounts(hs, ToWellformed(st.expr, dep).value, hs');
      }
    } else if st.else_.Some? && IsNegWellformed(st.expr, dep) {
      InsertedCounts(hs, PEUnary('N', NegToWellformed(st.expr, dep).value), hs');
    }
  }

  /** Whether a side of a branch gains a hypothesis. */
  function Gain(dep: set<PExpr>, e: PExpr, isTrue: bool): nat {
    if if isTrue then IsWellformed(e, dep) else IsNegWellformed(e, dep) then 1 else 0
  }

  /** Where the hypothesis holds, so does the other condition. */
  ghost predicate Implies(h: PExpr, c: PExpr) {
    forall I, s | TwoValued(I) && Holds(I, h, s) :: Holds(I, c, s)
  }

  /** Where the hypothesis holds, the other condition does not. */
  ghost predicate Excludes(h: PExpr, c: PExpr) {
    forall I, s | TwoValued(I) && Holds(I, h, s) :: !Holds(I, c, s)
  }

  /** What the true side must add: a hypothesis from which every conjunct of the condition
      follows that may be mentioned. It is the condition if all of it may be. */
  lemma TrueSideAdds(dep: set<PExpr>, st: Stmt, hs: seq<PExpr>, hs': seq<PExpr>, c: PExpr)
    requires st.Condit? && st.if_.Some? && BranchStep(dep, st, true, hs, hs')
    requires c in Conjuncts(st.expr) && Allowed(c, dep)
    ensures exists h <- hs' :: Implies(h, c)
    ensures multiset(hs) <= multiset(hs') && |hs'| == |hs| + 1
    ensures Allowed(st.expr, dep) ==> st.expr in hs'
  {
    var I: Interp<int> := CountingInterp(true);
    CountingTwoValued();
    ConjunctsKept(I, st.expr, dep, c, map[]);
    var h := ToWellformed(st.expr, dep).value;
    InsertedCounts(hs, h, hs');
    assert h in multiset(hs');
    forall I, s | TwoValued(I) && Holds(I, h, s) ensures Holds(I, c, s) {
      ConjunctsKept(I, st.expr, dep, c, s);
    }
    assert Implies(h, c);
    if Allowed(st.expr, dep) {
      AllowedKept(st.expr, dep);
    }
  }

  /** What the other side must add: a hypothesis that excludes every disjunct that may be
      mentioned. It is the negation if all of the condition may be. */
  lemma FalseSideAdds(dep: set<PExpr>, st: Stmt, hs: seq<PExpr>, hs': seq<PExpr>, c: PExpr)
    requires st.Condit? && st.else_.Some? && BranchStep(dep, st, false, hs, hs')
    requires c in Disjuncts(st.expr) && Allowed(c, dep)
    ensures exists h <- hs' :: Excludes(h, c)
    ensures multiset(hs) <= multiset(hs') && |hs'| == |hs| + 1
    ensures Allowed(st.expr, dep) ==> PEUnary('N', st.expr) in hs'
  {
    var I: Interp<int> := CountingInterp(true);
    CountingTwoValued();
    DisjunctsKept(I, st.expr, dep, c, map[]);
    var w := NegToWellformed(st.expr, dep).value;
    var h := PEUnary('N', w);
    InsertedCounts(hs, h, hs');
    assert h in multiset(hs');
    forall I, s | TwoValued(I) && Holds(I, h, s) ensures !Holds(I, c, s) {
      DisjunctsKept(I, st.expr, dep, c, s);
      var v := Eval(I, w, s);
      assert I.unary('N', v) == if v == 0 then 1 else 0;
    }
    assert Excludes(h, c);
    if Allowed(st.expr, dep) {
      AllowedKept(st.expr, dep);
    }
  }

  // The walk over a statement.

  /** The hypotheses a walk over a statement can leave; in an `ordered` one, both sides of
      every merge are in order. */
  ghost predicate Steps(ordered: bool, dep: set<PExpr>, less: Order, st: Stmt, hs: seq<PExpr>, hs': seq<PExpr>)
    decreases st, 1
  {
    match st
    case Assign(x, e) => AssignStep(dep, Ident(x), e, hs, hs')
    case AssignPart(x, index, e) => AssignStep(dep, PEIdent(x, index), e, hs, hs')
    case AssignNB(_, _) => hs' == hs
    case Block(list) => ListSteps(ordered, dep, less, list, hs, hs')
    case Condit(_, _, _) =>
      exists a, b ::
        && SideSteps(ordered, dep, less, st, true, hs, a)
        && SideSteps(ordered, dep, less, st, false, hs, b)
        && MergeStep(ordered, less, a, b, hs')
  }

  ghost predicate SideSteps(ordered: bool, dep: set<PExpr>, less: Order, st: Stmt, isTrue: bool, hs: seq<PExpr>,
                            hs': seq<PExpr>)
    requires st.Condit?
    decreases st, 0
  {
    var side := if isTrue then st.if_ else st.else_;
    if side.Some? then
      exists m :: BranchStep(dep, st, isTrue, hs, m) && Steps(ordered, dep, less, side.value, m, hs')
    else hs' == hs
  }

  /** In order, every hypothesis of both sides is left, as often as both have it. */
  ghost predicate MergeStep(ordered: bool, less: Order, a: seq<PExpr>, b: seq<PExpr>, hs': seq<PExpr>) {
    hs' == Intersection(less, a, b) && (ordered ==> Sorted(less, a) && Sorted(less, b))
  }

  ghost predicate ListSteps(ordered: bool, dep: set<PExpr>, less: Order, list: seq<Stmt>, hs: seq<PExpr>,
                            hs': seq<PExpr>)
    decreases list
  {
    if list == [] then hs' == hs
    else
      exists m ::
        Steps(ordered, dep, less, list[0], hs, m) && ListSteps(ordered, dep, less, list[1..], m, hs')
  }

  class Predicate {
    // In the order of their addresses. Every insertion makes a new object, so equal
    // hypotheses can be there several times.
    var hypotheses: seq<PExpr>

    constructor (hypotheses: seq<PExpr>)
      ensures this.hypotheses == hypotheses
    {
      this.hypotheses := hypotheses;
    }

    method Insert(h: PExpr)
      modifies this
      ensures Inserted(old(hypotheses), h, hypotheses)
    {
      var k :| 0 <= k <= |hypotheses|;
      hypotheses := hypotheses[..k] + [h] + hypotheses[k..];
    }

    /** Walk over the hypotheses and erase those that mention the l-value. */
    method Invalidate(lval: PExpr)
      modifies this
      ensures hypotheses == Without(old(hypotheses), lval)
      ensures forall h :: multiset(hypotheses)[h] == if Contains(h, lval) then 0 else multiset(old(hypotheses))[h]
      ensures Support(hypotheses) == Kept(Support(old(hypotheses)), lval)
    {
      var ite := 0;
      WalkEnds(hypotheses, lval);
      while ite != |hypotheses|
        invariant 0 <= ite <= |hypotheses|
        invariant Walked(hypotheses, ite, lval) == Without(old(hypotheses), lval)
        decreases |hypotheses| - ite
      {
        WalkStep(hypotheses, ite, lval);
        if Contains(hypotheses[ite], lval) {
          hypotheses := Erased(hypotheses, ite);
        } else {
          ite := ite + 1;
        }
      }
      WalkEnds(hypotheses, lval);
      WithoutExact(old(hypotheses), lval);
    }

    /** One object more for the equality, if it is recorded. */
    method AbsintpAssign(dep: set<PExpr>, lval: PExpr, e: PExpr)
      modifies this
      ensures AssignStep(dep, lval, e, old(hypotheses), hypotheses)
      ensures Support(hypotheses) == AfterLval(dep, lval, e, Support(old(hypotheses)))
      ensures forall h :: multiset(hypotheses)[h] ==
                (if Contains(h, lval) then 0 else multiset(old(hypotheses))[h])
                + (if RecordsLval(dep, lval, e) && h == PEBinary('e', lval, e) then 1 else 0)
    {
      Invalidate(lval);
      if e.PENumber? || e in dep {
        if lval in dep {
          Insert(PEBinary('e', lval, e));
        }
      }
      AssignCounts(dep, lval, e, old(hypotheses), hypotheses);
    }

    method AbsintpCondit(dep: set<PExpr>, st: Stmt, isTrue: bool)
      requires st.Condit?
      modifies this
      ensures BranchStep(dep, st, isTrue, old(hypotheses), hypotheses)
      ensures Support(hypotheses) == AfterBranch(dep, st, isTrue, Support(old(hypotheses)))
      ensures multiset(old(hypotheses)) <= multiset(hypotheses) && |hypotheses| <= |old(hypotheses)| + 1
    {
      if isTrue && st.if_.Some? {
        if IsWellformed(st.expr, dep) {
          Insert(ToWellformed(st.expr, dep).value);
        }
      } else if st.else_.Some? {
        if IsNegWellformed(st.expr, dep) {
          Insert(PEUnary('N', NegToWellformed(st.expr, dep).value));
        }
      }
      BranchCounts(dep, st, isTrue, old(hypotheses), hypotheses);
    }

    /** Keep what both branches have, as far as the intersection finds it. */
    method Merge(less: Order, afterIf: seq<PExpr>, afterElse: seq<PExpr>)
      requires StrictTotal(less)
      modifies this
      ensures hypotheses == Intersection(less, afterIf, afterElse)
      ensures multiset(hypotheses) <= multiset(afterIf) * multiset(afterElse)
    {
      hypotheses := Intersect(less, afterIf, afterElse);
      IntersectionSound(less, afterIf, afterElse);
    }

    /** Thread the predicate through a statement: in order through blocks, from the same
        hypotheses into both branches, and merged after them. */
    method Typecheck(dep: set<PExpr>, less: Order, st: Stmt)
      requires StrictTotal(less)
      modifies this
      ensures Steps(false, dep, less, st, old(hypotheses), hypotheses)
      ensures Support(hypotheses) <= Analyze(dep, st, Support(old(hypotheses)))
      decreases st
    {
      match st {
      case Assign(x, e) =>
        AbsintpAssign(dep, Ident(x), e);
      case AssignPart(x, index, e) =>
        AbsintpAssign(dep, PEIdent(x, index), e);
      case AssignNB(_, _) =>
      case Block(list) =>
        ghost var first := hypotheses;
        assert list[0..] == list;
        for idx := 0 to |list|
          invariant forall last | ListSteps(false, dep, less, list[idx..], hypotheses, last) ::
            ListSteps(false, dep, less, list, first, last)
        {
          ghost var now := hypotheses;
          Typecheck(dep, less, list[idx]);
          assert list[idx..][0] == list[idx] && list[idx..][1..] == list[idx + 1..];
          forall last | ListSteps(false, dep, less, list[idx + 1..], hypotheses, last)
            ensures ListSteps(false, dep, less, list, first, last)
          {
            assert ListSteps(false, dep, less, list[idx..], now, last);
          }
        }
        assert ListSteps(false, dep, less, list[|list|..], hypotheses, hypotheses);
      case Condit(e, if_, else_) =>
        var beforeIf := hypotheses;
        if if_.Some? {
          AbsintpCondit(dep, st, true);
          Typecheck(dep, less, if_.value);
        }
        var afterIf := hypotheses;
        hypotheses := beforeIf;
        if else_.Some? {
          AbsintpCondit(dep, st, false);
          Typecheck(dep, less, else_.value);
        }
        var afterElse := hypotheses;
        hypotheses := [];
        Merge(less, afterIf, afterElse);
        assert SideSteps(false, dep, less, st, true, beforeIf, afterIf);
        assert SideSteps(false, dep, less, st, false, beforeIf, afterElse);
        assert MergeStep(false, less, afterIf, afterElse, hypotheses);
      }
      StepsExact(false, dep, less, st, old(hypotheses), hypotheses);
    }
  }

  /** What a walk leaves is never more than the analysis with exact intersections has, and
      in an ordered walk all of it. */
  lemma {:induction false} StepsExact(ordered: bool, dep: set<PExpr>, less: Order, st: Stmt, hs: seq<PExpr>,
                                      hs': seq<PExpr>)
    requires StrictTotal(less) && Steps(ordered, dep, less, st, hs, hs')
    ensures Support(hs') <= Analyze(dep, st, Support(hs))
    ensures ordered ==> Support(hs') == Analyze(dep, st, Support(hs))
    decreases st, 1
  {
    match st
    case Assign(x, e) => AssignCounts(dep, Ident(x), e, hs, hs');
    case AssignPart(x, index, e) => AssignCounts(dep, PEIdent(x, index), e, hs, hs');
    case AssignNB(_, _) =>
    case Block(list) => ListExact(ordered, dep, less, list, hs, hs');
    case Condit(_, _, _) =>
      var a, b :|
        && SideSteps(ordered, dep, less, st, true, hs, a)
        && SideSteps(ordered, dep, less, st, false, hs, b)
        && MergeStep(ordered, less, a, b, hs');
      SideExact(ordered, dep, less, st, true, hs, a);
      SideExact(ordered, dep, less, st, false, hs, b);
      MergeExact(ordered, less, a, b, hs');
  }

  lemma {:induction false} SideExact(ordered: bool, dep: set<PExpr>, less: Order, st: Stmt, isTrue: bool,
                                     hs: seq<PExpr>, hs': seq<PExpr>)
    requires StrictTotal(less) && st.Condit? && SideSteps(ordered, dep, less, st, isTrue, hs, hs')
    ensures var side, H := if isTrue then st.if_ else st.else_, AfterBranch(dep, st, isTrue, Support(hs));
            var after := if side.Some? then Analyze(dep, side.value, H) else Support(hs);
            Support(hs') <= after && (ordered ==> Support(hs') == after)
    decreases st, 0
  {
    var side := if isTrue then st.if_ else st.else_;
    if side.Some? {
      var m :| BranchStep(dep, st, isTrue, hs, m) && Steps(ordered, dep, less, side.value, m, hs');
      BranchCounts(dep, st, isTrue, hs, m);
      StepsExact(ordered, dep, less, side.value, m, hs');
    }
  }

  lemma MergeExact(ordered: bool, less: Order, a: seq<PExpr>, b: seq<PExpr>, hs': seq<PExpr>)
    requires StrictTotal(less) && MergeStep(ordered, less, a, b, hs')
    ensures Support(hs') <= Support(a) * Support(b)
    ensures ordered ==> multiset(hs') == multiset(a) * multiset(b) && Support(hs') == Support(a) * Support(b)
  {
    SupportCounts(a);
    SupportCounts(b);
    SupportCounts(hs');
    IntersectionSound(less, a, b);
    if ordered {
      IntersectionComplete(less, a, b);
    }
  }

  lemma {:induction false} ListExact(ordered: bool, dep: set<PExpr>, less: Order, list: seq<Stmt>, hs: seq<PExpr>,
                                     hs': seq<PExpr>)
    requires StrictTotal(less) && ListSteps(ordered, dep, less, list, hs, hs')
    ensures Support(hs') <= AnalyzeList(dep, list, Support(hs))
    ensures ordered ==> Support(hs') == AnalyzeList(dep, list, Support(hs))
    decreases list
  {
    if list != [] {
      var m :| Steps(ordered, dep, less, list[0], hs, m) && ListSteps(ordered, dep, less, list[1..], m, hs');
      StepsExact(ordered, dep, less, list[0], hs, m);
      ListExact(ordered, dep, less, list[1..], m, hs');
      AnalyzeListMonotone(dep, list[1..], Support(m), Analyze(dep, list[0], Support(hs)));
    }
  }

  /** How many hypotheses a walk can add at most. */
  function Gains(dep: set<PExpr>, st: Stmt): nat
    decreases st, 1
  {
    match st
    case Assign(x, e) => if Records(dep, x, e) then 1 else 0
    case AssignPart(x, index, e) => if RecordsLval(dep, PEIdent(x, index), e) then 1 else 0
    case AssignNB(_, _) => 0
    case Block(list) => ListGains(dep, list)
    case Condit(_, _, _) =>
      var a, b := SideGains(dep, st, true), SideGains(dep, st, false);
      if a < b then b else a
  }

  function SideGains(dep: set<PExpr>, st: Stmt, isTrue: bool): nat
    requires st.Condit?
    decreases st, 0
  {
    var side := if isTrue then st.if_ else st.else_;
    if side.Some? then Gain(dep, st.expr, isTrue) + Gains(dep, side.value) else 0
  }

  function ListGains(dep: set<PExpr>, list: seq<Stmt>): nat
    decreases list
  {
    if list == [] then 0 else Gains(dep, list[0]) + ListGains(dep, list[1..])
  }

  /** Where there is never more than one hypothesis, every walk is ordered. */
  lemma {:induction false} ShortOrdered(dep: set<PExpr>, less: Order, st: Stmt, hs: seq<PExpr>, hs': seq<PExpr>)
    requires StrictTotal(less) && Steps(false, dep, less, st, hs, hs')
    ensures |hs'| <= |hs| + Gains(dep, st)
    ensures |hs| + Gains(dep, st) <= 1 ==> Steps(true, dep, less, st, hs, hs')
    decreases st, 1
  {
    match st
    case Assign(x, e) => AssignCounts(dep, Ident(x), e, hs, hs');
    case AssignPart(x, index, e) => AssignCounts(dep, PEIdent(x, index), e, hs, hs');
    case AssignNB(_, _) =>
    case Block(list) => ListShort(dep, less, list, hs, hs');
    case Condit(_, _, _) =>
      var a, b :|
        && SideSteps(false, dep, less, st, true, hs, a)
        && SideSteps(false, dep, less, st, false, hs, b)
        && MergeStep(false, less, a, b, hs');
      SideShort(dep, less, st, true, hs, a);
      SideShort(dep, less, st, false, hs, b);
      ShorterThanBoth(less, a, b);
      if |hs| + Gains(dep, st) <= 1 {
        assert Sorted(less, a) && Sorted(less, b);
        assert MergeStep(true, less, a, b, hs');
      }
  }

  lemma {:induction false} SideShort(dep: set<PExpr>, less: Order, st: Stmt, isTrue: bool, hs: seq<PExpr>,
                                     hs': seq<PExpr>)
    requires StrictTotal(less) && st.Condit? && SideSteps(false, dep, less, st, isTrue, hs, hs')
    ensures |hs'| <= |hs| + SideGains(dep, st, isTrue)
    ensures |hs| + SideGains(dep, st, isTrue) <= 1 ==> SideSteps(true, dep, less, st, isTrue, hs, hs')
    decreases st, 0
  {
    var side := if isTrue then st.if_ else st.else_;
    if side.Some? {
      var m :| BranchStep(dep, st, isTrue, hs, m) && Steps(false, dep, less, side.value, m, hs');
      BranchCounts(dep, st, isTrue, hs, m);
      ShortOrdered(dep, less, side.value, m, hs');
    }
  }

  lemma {:induction false} ShorterThanBoth(less: Order, a: seq<PExpr>, b: seq<PExpr>)
    ensures |Intersection(less, a, b)| <= |a|
    decreases |a| + |b|
  {
    if a != [] && b != [] {
      if less(a[0], b[0]) {
        ShorterThanBoth(less, a[1..], b);
      } else if less(b[0], a[0]) {
        ShorterThanBoth(less, a, b[1..]);
      } else {
        ShorterThanBoth(less, a[1..], b[1..]);
      }
    }
  }

  lemma {:induction false} ListShort(dep: set<PExpr>, less: Order, list: seq<Stmt>, hs: seq<PExpr>, hs': seq<PExpr>)
    requires StrictTotal(less) && ListSteps(false, dep, less, list, hs, hs')
    ensures |hs'| <= |hs| + ListGains(dep, list)
    ensures |hs| + ListGains(dep, list) <= 1 ==> ListSteps(true, dep, less, list, hs, hs')
    decreases list
  {
    if list != [] {
      var m :| Steps(false, dep, less, list[0], hs, m) && ListSteps(false, dep, less, list[1..], m, hs');
      ShortOrdered(dep, less, list[0], hs, m);
      ListShort(dep, less, list[1..], m, hs');
    }
  }

  predicate BranchFree(st: Stmt)
    decreases st
  {
    match st
    case Block(list) => forall i | 0 <= i < |list| :: BranchFree(list[i])
    case Condit(_, _, _) => false
    case _ => true
  }

  /** Without branches every walk is ordered. */
  lemma {:induction false} BranchFreeOrdered(dep: set<PExpr>, less: Order, st: Stmt, hs: seq<PExpr>, hs': seq<PExpr>)
    requires BranchFree(st) && Steps(false, dep, less, st, hs, hs')
    ensures Steps(true, dep, less, st, hs, hs')
    decreases st
  {
    if st.Block? {
      ListFree(dep, less, st.list, hs, hs');
    }
  }

  lemma {:induction false} ListFree(dep: set<PExpr>, less: Order, list: seq<Stmt>, hs: seq<PExpr>, hs': seq<PExpr>)
    requires (forall i | 0 <= i < |list| :: BranchFree(list[i])) && ListSteps(false, dep, less, list, hs, hs')
    ensures ListSteps(true, dep, less, list, hs, hs')
    decreases list
  {
    if list != [] {
      var m :| Steps(false, dep, less, list[0], hs, m) && ListSteps(false, dep, less, list[1..], m, hs');
      BranchFreeOrdered(dep, less, list[0], hs, m);
      ListFree(dep, less, list[1..], m, hs');
    }
  }

  /** Everything the analysis with exact intersections has is left, at the end of a tree
      without branches and wherever at most one hypothesis is about. */
  lemma NothingLost(dep: set<PExpr>, less: Order, st: Stmt, hs: seq<PExpr>, hs': seq<PExpr>)
    requires StrictTotal(less) && Steps(false, dep, less, st, hs, hs')
    requires BranchFree(st) || |hs| + Gains(dep, st) <= 1
    ensures Support(hs') == Analyze(dep, st, Support(hs))
  {
    if BranchFree(st) {
      BranchFreeOrdered(dep, less, st, hs, hs');
    } else {
      ShortOrdered(dep, less, st, hs, hs');
    }
    StepsExact(true, dep, less, st, hs, hs');
  }

  /** Within a branch on z, a branch on something else that assigns y leaves what is known
      of z. */
  lemma KeptAcrossBranch(less: Order, hs': seq<PExpr>)
    requires StrictTotal(less)
    requires var st := Condit(Ident("c"), Some(Assign("y", Ident("a"))), None);
             Steps(false, {}, less, st, [PEUnary('N', Ident("z"))], hs')
    ensures hs' == [PEUnary('N', Ident("z"))]
  {
    var h := PEUnary('N', Ident("z"));
    var st := Condit(Ident("c"), Some(Assign("y", Ident("a"))), None);
    var none: set<PExpr> := {};
    assert !Contains(h, Ident("y"));
    assert Without([h], Ident("y")) == [h] by {
      assert [h][1..] == [];
    }
    var a, b :|
      && SideSteps(false, none, less, st, true, [h], a)
      && SideSteps(false, none, less, st, false, [h], b)
      && MergeStep(false, less, a, b, hs');
    assert a == [h];
    assert Intersection(less, [h], [h]) == [h] + Intersection(less, [h][1..], [h][1..]);
  }

  /** The analysis as it is carried out is sound: whatever order the merges met, what is
      left holds after every run. */
  lemma LeftHypothesesHold(I: Interp<int>, dep: set<PExpr>, parts: set<string>, less: Order, st: Stmt,
                           hs: seq<PExpr>, left: seq<PExpr>, s: Store)
    requires TwoValued(I) && Safe(dep, parts, st) && StrictTotal(less)
    requires Traceable(Support(hs), parts) && Satisfies(I, s, Support(hs))
    requires Steps(false, dep, less, st, hs, left)
    ensures Satisfies(I, Exec(I, st, s), Support(left))
  {
    StepsExact(false, dep, less, st, hs, left);
    AnalysisSound(I, dep, parts, st, Support(hs), s);
  }
}
