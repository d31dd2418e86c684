/** Weakening a condition to the expressions a type may depend on (PExpr.cc). The
    name of an expression is its text, so a set of names is a set of expressions. */
module Polarity {
  import opened PExprs

  predicate IsComparison(op: char) {
    op == 'e' || op == 'L' || op == 'n'
  }

  predicate IsWellformed(e: PExpr, s: set<PExpr>) {
    match e
    case PENumber(_) => true
    case PEIdent(_, _) => e in s
    case PEUnary(op, _) => op == 'N'
    case PEBinary(op, l, r) =>
      if IsComparison(op) || op == 'o' then IsWellformed(l, s) && IsWellformed(r, s)
      else op == 'a' && (IsWellformed(l, s) || IsWellformed(r, s))
    case _ => false
  }

  predicate IsNegWellformed(e: PExpr, s: set<PExpr>) {
    match e
    case PEBinary(op, l, r) =>
      if IsComparison(op) || op == 'a' then IsNegWellformed(l, s) && IsNegWellformed(r, s)
      else op == 'o' && (IsNegWellformed(l, s) || IsNegWellformed(r, s))
    case _ => IsWellformed(e, s)
  }

  /** A consequence of the condition; a conjunct that is not wellformed is dropped. */
  function ToWellformed(e: PExpr, s: set<PExpr>): (w: Option<PExpr>)
    ensures w.Some? <==> IsWellformed(e, s)
  {
    match e
    case PENumber(_) => Some(e)
    case PEIdent(_, _) => if e in s then Some(e) else None
    case PEUnary(op, _) => if op == 'N' then Some(e) else None
    case PEBinary(op, l, r) =>
      if IsComparison(op) || op == 'o' || op == 'a' then
        if IsWellformed(l, s) && IsWellformed(r, s) then
          Some(PEBinary(op, ToWellformed(l, s).value, ToWellformed(r, s).value))
        else if op == 'a' && IsWellformed(l, s) then ToWellformed(l, s)
        else if op == 'a' && IsWellformed(r, s) then ToWellformed(r, s)
        else None
      else None
    case _ => None
  }

  /** A condition that implies the given one; a disjunct that is not wellformed is dropped. */
  function NegToWellformed(e: PExpr, s: set<PExpr>): (w: Option<PExpr>)
    ensures w.Some? <==> IsNegWellformed(e, s)
  {
    match e
    case PEBinary(op, l, r) =>
      if IsComparison(op) || op == 'o' || op == 'a' then
        if IsNegWellformed(l, s) && IsNegWellformed(r, s) then
          Some(PEBinary(op, NegToWellformed(l, s).value, NegToWellformed(r, s).value))
        else if op == 'o' && IsNegWellformed(l, s) then NegToWellformed(l, s)
        else if op == 'o' && IsNegWellformed(r, s) then NegToWellformed(r, s)
        else None
      else None
    case _ => ToWellformed(e, s)
  }

  /** Two-valued conditions: 0 is false and everything else is true. */
  ghost predicate TwoValued(I: Interp<int>) {
    && (forall x, y :: I.binary('a', x, y) == if x != 0 && y != 0 then 1 else 0)
    && (forall x, y :: I.binary('o', x, y) == if x != 0 || y != 0 then 1 else 0)
    && (forall x, y :: I.binary('e', x, y) == if x == y then 1 else 0)
    && (forall x, y :: I.binary('n', x, y) == if x != y then 1 else 0)
    && (forall x, y :: I.binary('L', x, y) == if x <= y then 1 else 0)
    && (forall x :: I.unary('N', x) == if x == 0 then 1 else 0)
    && (forall c, t, f :: I.ternary(c, t, f) == if c != 0 then t else f)
  }

  predicate Holds(I: Interp<int>, e: PExpr, s: map<string, int>) {
    Eval(I, e, s) != 0
  }

  /** Nothing is dropped beneath a comparison, where dropping changes a value instead
      of weakening a condition. */
  predicate KeepsOperands(e: PExpr, s: set<PExpr>) {
    match e
    case PEBinary(op, l, r) =>
      if IsComparison(op) then
        && (IsWellformed(l, s) && IsWellformed(r, s) ==>
              ToWellformed(l, s) == Some(l) && ToWellformed(r, s) == Some(r))
        && (IsNegWellformed(l, s) && IsNegWellformed(r, s) ==>
              NegToWellformed(l, s) == Some(l) && NegToWellformed(r, s) == Some(r))
      else KeepsOperands(l, s) && KeepsOperands(r, s)
    case _ => true
  }

  predicate NoConnective(e: PExpr) {
    match e
    case PEBinary(op, l, r) => op != 'a' && op != 'o' && NoConnective(l) && NoConnective(r)
    case _ => true
  }

  /** No && or || beneath a comparison. */
  predicate FlatComparisons(e: PExpr) {
    match e
    case PEBinary(op, l, r) =>
      if IsComparison(op) then NoConnective(l) && NoConnective(r)
      else FlatComparisons(l) && FlatComparisons(r)
    case _ => true
  }

  lemma {:induction false} NoConnectiveKept(e: PExpr, s: set<PExpr>)
    requires NoConnective(e)
    ensures IsWellformed(e, s) ==> ToWellformed(e, s) == Some(e)
    ensures IsNegWellformed(e, s) ==> NegToWellformed(e, s) == Some(e)
  {
    match e
    case PEBinary(_, l, r) => NoConnectiveKept(l, s); NoConnectiveKept(r, s);
    case _ =>
  }

  lemma {:induction false} FlatKeepsOperands(e: PExpr, s: set<PExpr>)
    requires FlatComparisons(e)
    ensures KeepsOperands(e, s)
  {
    match e
    case PEBinary(op, l, r) =>
      if IsComparison(op) {
        NoConnectiveKept(l, s);
        NoConnectiveKept(r, s);
      } else {
        FlatKeepsOperands(l, s);
        FlatKeepsOperands(r, s);
      }
    case _ =>
  }

  lemma ConnectiveTruth(I: Interp<int>, op: char, e: PExpr, store: map<string, int>)
    requires TwoValued(I) && e.PEBinary? && e.op == op && (op == 'a' || op == 'o')
    ensures op == 'a' ==> (Holds(I, e, store) <==> Holds(I, e.left, store) && Holds(I, e.right, store))
    ensures op == 'o' ==> (Holds(I, e, store) <==> Holds(I, e.left, store) || Holds(I, e.right, store))
  {
    var x, y := Eval(I, e.left, store), Eval(I, e.right, store);
    assert Eval(I, e, store) == I.binary(e.op, x, y);
    assert I.binary('a', x, y) == if x != 0 && y != 0 then 1 else 0;
    assert I.binary('o', x, y) == if x != 0 || y != 0 then 1 else 0;
  }

  /** Both weakenings at once: the condition implies its wellformed part, and is implied
      by the part kept for its negation. */
  lemma {:induction false} TwoSided(I: Interp<int>, e: PExpr, s: set<PExpr>, store: map<string, int>)
    requires TwoValued(I) && KeepsOperands(e, s)
    ensures IsWellformed(e, s) && Holds(I, e, store) ==> Holds(I, ToWellformed(e, s).value, store)
    ensures IsNegWellformed(e, s) && Holds(I, NegToWellformed(e, s).value, store) ==> Holds(I, e, store)
  {
    match e
    case PEBinary(op, l, r) =>
      if op == 'a' || op == 'o' {
        TwoSided(I, l, s, store);
        TwoSided(I, r, s, store);
        ConnectiveTruth(I, op, e, store);
        if IsWellformed(l, s) && IsWellformed(r, s) {
          ConnectiveTruth(I, op, ToWellformed(e, s).value, store);
        }
        if IsNegWellformed(l, s) && IsNegWellformed(r, s) {
          ConnectiveTruth(I, op, NegToWellformed(e, s).value, store);
        }
      } else {
        assert IsWellformed(e, s) ==> ToWellformed(e, s) == Some(e);
        assert IsNegWellformed(e, s) ==> NegToWellformed(e, s) == Some(e);
      }
    case _ =>
  }

  /** Built from numbers, names of the set, negations and the connectives and comparisons
      the weakening looks through. */
  predicate Allowed(e: PExpr, s: set<PExpr>) {
    match e
    case PENumber(_) => true
    case PEIdent(_, _) => e in s
    case PEUnary(op, _) => op == 'N'
    case PEBinary(op, l, r) => (IsComparison(op) || op == 'a' || op == 'o') && Allowed(l, s) && Allowed(r, s)
    case _ => false
  }

  /** Where everything may be mentioned, nothing is lost. */
  lemma {:induction false} AllowedKept(e: PExpr, s: set<PExpr>)
    requires Allowed(e, s)
    ensures ToWellformed(e, s) == Some(e) && NegToWellformed(e, s) == Some(e)
  {
    match e
    case PEBinary(_, l, r) => AllowedKept(l, s); AllowedKept(r, s);
    case _ =>
  }

  function Conjuncts(e: PExpr): set<PExpr> {
    if e.PEBinary? && e.op == 'a' then Conjuncts(e.left) + Conjuncts(e.right) else {e}
  }

  function Disjuncts(e: PExpr): set<PExpr> {
    if e.PEBinary? && e.op == 'o' then Disjuncts(e.left) + Disjuncts(e.right) else {e}
  }

  /** Every conjunct that may be mentioned follows from the weakened condition. */
  lemma {:induction false} ConjunctsKept(I: Interp<int>, e: PExpr, s: set<PExpr>, c: PExpr, store: map<string, int>)
    requires TwoValued(I) && c in Conjuncts(e) && Allowed(c, s)
    ensures IsWellformed(e, s)
    ensures Holds(I, ToWellformed(e, s).value, store) ==> Holds(I, c, store)
  {
    if e.PEBinary? && e.op == 'a' {
      ConjunctsKept(I, if c in Conjuncts(e.left) then e.left else e.right, s, c, store);
      if IsWellformed(e.left, s) && IsWellformed(e.right, s) {
        ConnectiveTruth(I, 'a', ToWellformed(e, s).value, store);
      }
    } else {
      AllowedKept(e, s);
    }
  }

  /** Every disjunct that may be mentioned implies what is kept for the negation. */
  lemma {:induction false} DisjunctsKept(I: Interp<int>, e: PExpr, s: set<PExpr>, c: PExpr, store: map<string, int>)
    requires TwoValued(I) && c in Disjuncts(e) && Allowed(c, s)
    ensures IsNegWellformed(e, s)
    ensures Holds(I, c, store) ==> Holds(I, NegToWellformed(e, s).value, store)
  {
    if e.PEBinary? && e.op == 'o' {
      DisjunctsKept(I, if c in Disjuncts(e.left) then e.left else e.right, s, c, store);
      if IsNegWellformed(e.left, s) && IsNegWellformed(e.right, s) {
        ConnectiveTruth(I, 'o', NegToWellformed(e, s).value, store);
      }
    } else {
      AllowedKept(e, s);
    }
  }

  /** Under a comparison a dropped conjunct is not a weakening: (a && b[0]) == 0 becomes
      a == 0 when a may be mentioned, and the bit of b never may. */
  lemma NestedConnectiveUnsound(I: Interp<int>, s: set<PExpr>)
    requires TwoValued(I) && I.number([]) == 0 && I.select(0, [Bit], [0]) == 0
    requires PEIdent("a", []) in s && forall e <- s :: e.PEIdent? && e.index == []
    ensures var a, b := PEIdent("a", []), PEIdent("b", [SelBit(PENumber([]))]);
            var e := PEBinary('e', PEBinary('a', a, b), PENumber([]));
            var store := map["a" := 1, "b" := 0];
            && Holds(I, e, store) && IsWellformed(e, s)
            && !Holds(I, ToWellformed(e, s).value, store)
  {
    var index := [SelBit(PENumber([]))];
    var a, b := PEIdent("a", []), PEIdent("b", index);
    var store := map["a" := 1, "b" := 0];
    assert b !in s;
    assert Kinds(index) == [Bit] && EvalIndex(I, index, store) == [0] by {
      assert EvalSel(I, index[0], store) == [0] && EvalIndex(I, index[1..], store) == [];
    }
    assert Eval(I, a, store) == 1 && Eval(I, b, store) == 0;
    assert Eval(I, PEBinary('a', a, b), store) == 0;
    assert ToWellformed(PEBinary('a', a, b), s) == Some(a);
  }

  predicate HasNot(e: PExpr) {
    match e
    case PEUnary(op, a) => op == 'N' || HasNot(a)
    case PEBinary(_, l, r) => HasNot(l) || HasNot(r)
    case _ => false
  }

  /** The identifiers among the operands of binary operators. */
  function Leaves(e: PExpr): set<PExpr> {
    match e
    case PEIdent(_, _) => {e}
    case PEBinary(_, l, r) => Leaves(l) + Leaves(r)
    case _ => {}
  }

  predicate OnlyLeaves(e: PExpr) {
    match e
    case PENumber(_) => true
    case PEIdent(_, _) => true
    case PEBinary(_, l, r) => OnlyLeaves(l) && OnlyLeaves(r)
    case _ => false
  }

  /** Without a `not` in it, a weakened condition is built from numbers and from
      identifiers of the set alone. */
  lemma {:induction false} MentionsOnly(e: PExpr, s: set<PExpr>)
    requires !HasNot(e)
    ensures IsWellformed(e, s) ==>
              OnlyLeaves(ToWellformed(e, s).value) && Leaves(ToWellformed(e, s).value) <= s
    ensures IsNegWellformed(e, s) ==>
              OnlyLeaves(NegToWellformed(e, s).value) && Leaves(NegToWellformed(e, s).value) <= s
  {
    match e
    case PEBinary(_, l, r) => MentionsOnly(l, s); MentionsOnly(r, s);
    case _ =>
  }
}
