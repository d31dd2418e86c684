/** The statements the flow analyses accept, and their effect on a two-valued store. */
module FlowStatements {
  import opened PExprs
  import opened Polarity

  /** Trees of assignments, to names or to selected parts of them, blocks and branches. */
  datatype Stmt =
    | Assign(lval: string, rval: PExpr)
    | AssignPart(lval: string, index: seq<Sel>, rval: PExpr)
    | AssignNB(lval: string, rval: PExpr)
    | Block(list: seq<Stmt>)
    | Condit(expr: PExpr, if_: Option<Stmt>, else_: Option<Stmt>)

  type Store = map<string, int>

  /** The store after a statement; what a non-blocking assignment schedules is not
      visible before the statement is over. */
  function Exec(I: Interp<int>, st: Stmt, s: Store): Store
    decreases st
  {
    match st
    case Assign(x, e) => s[x := Eval(I, e, s)]
    case AssignPart(x, index, e) => Written(I, x, index, Eval(I, e, s), s)
    case AssignNB(_, _) => s
    case Block(list) => ExecList(I, list, s)
    case Condit(e, if_, else_) =>
      var branch := if Holds(I, e, s) then if_ else else_;
      if branch.None? then s else Exec(I, branch.value, s)
  }

  /** The store with a part of a name replaced. */
  function Written(I: Interp<int>, x: string, index: seq<Sel>, v: int, s: Store): Store {
    s[x := I.update(Lookup(I, s, x), Kinds(index), EvalIndex(I, index, s), v)]
  }

  function ExecList(I: Interp<int>, list: seq<Stmt>, s: Store): Store
    decreases list
  {
    if list == [] then s else ExecList(I, list[1..], Exec(I, list[0], s))
  }

  /** A conditional expression on the right becomes branches around assignments. */
  function TranslateArm(lhs: string, index: seq<Sel>, e: PExpr): Stmt
    decreases e
  {
    match e
    case PETernary(c, t, f) => Condit(c, Some(TranslateArm(lhs, index, t)), Some(TranslateArm(lhs, index, f)))
    case _ => if index == [] then Assign(lhs, e) else AssignPart(lhs, index, e)
  }

  predicate NoTernaryLeft(st: Stmt)
    decreases st
  {
    match st
    case Assign(_, e) => !e.PETernary?
    case AssignPart(_, _, e) => !e.PETernary?
    case AssignNB(_, _) => true
    case Block(list) => forall i | 0 <= i < |list| :: NoTernaryLeft(list[i])
    case Condit(_, i, e) => (i.Some? ==> NoTernaryLeft(i.value)) && (e.Some? ==> NoTernaryLeft(e.value))
  }

  /** The translation stores the value of the conditional expression, and leaves none
      as a right-hand side. */
  lemma {:induction false} TranslatePreserves(I: Interp<int>, lhs: string, index: seq<Sel>, e: PExpr, s: Store)
    requires TwoValued(I)
    ensures var v := Eval(I, e, s);
            Exec(I, TranslateArm(lhs, index, e), s) == if index == [] then s[lhs := v] else Written(I, lhs, index, v, s)
    ensures NoTernaryLeft(TranslateArm(lhs, index, e))
    decreases e
  {
    match e
    case PETernary(c, t, f) =>
      TranslatePreserves(I, lhs, index, t, s);
      TranslatePreserves(I, lhs, index, f, s);
      var x, y, z := Eval(I, c, s), Eval(I, t, s), Eval(I, f, s);
      assert I.ternary(x, y, z) == if x != 0 then y else z;
    case _ =>
  }
}
