/** The label an expression is given (check_expr.cc), read in any lattice of levels. */
module Labels {
  import opened PExprs
  import opened Counting
  import opened Flow

  datatype SecType = TOP | BOT | Declared(name: string) | JoinType(comp1: SecType, comp2: SecType)

  type Env = map<string, SecType>

  /** A lattice of levels, with the level each declared label stands for. */
  datatype Lattice<!L> = Lattice(leq: (L, L) -> bool, join: (L, L) -> L, bot: L, top: L, declared: string -> L)

  ghost predicate IsLattice<L(!new)>(lat: Lattice<L>) {
    && (forall a: L :: lat.leq(a, a) && lat.leq(lat.bot, a) && lat.leq(a, lat.top))
    && (forall a: L, b: L, c: L :: lat.leq(a, b) && lat.leq(b, c) ==> lat.leq(a, c))
    && (forall a: L, b: L, c: L :: lat.leq(lat.join(a, b), c) <==> lat.leq(a, c) && lat.leq(b, c))
  }

  function Level<L>(lat: Lattice<L>, t: SecType): L {
    match t
    case TOP => lat.top
    case BOT => lat.bot
    case Declared(l) => lat.declared(l)
    case JoinType(a, b) => lat.join(Level(lat, a), Level(lat, b))
  }

  /** The label of a name: an unbound one is at the top. */
  function Binding(env: Env, x: string): SecType {
    if x in env then env[x] else TOP
  }

  function TypeOf(e: PExpr, env: Env): SecType
    decreases e
  {
    match e
    case PENumber(_) => BOT
    case PEString(_) => BOT
    case PEIdent(x, _) => Binding(env, x)
    case PEUnary(_, a) => TypeOf(a, env)
    case PEBinary(_, l, r) => JoinType(TypeOf(l, env), TypeOf(r, env))
    case PETernary(_, _, _) => BOT
    case PEConcat(parms, None) => JoinAll(BOT, parms, env)
    case PEConcat(parms, Some(n)) => JoinAll(TypeOf(n, env), parms, env)
    case PECall(_, _) => BOT
  }

  function JoinAll(last: SecType, parms: seq<PExpr>, env: Env): SecType
    decreases parms
  {
    if parms == [] then last else JoinAll(JoinType(last, TypeOf(parms[0], env)), parms[1..], env)
  }

  method Typecheck(e: PExpr, varsToType: Env) returns (ty: SecType)
    ensures ty == TypeOf(e, varsToType)
    decreases e
  {
    match e
    case PENumber(_) => ty := BOT;
    case PEString(_) => ty := BOT;
    case PEIdent(name, _) =>
      if name in varsToType {
        ty := varsToType[name];
      } else {
        ty := TOP;
      }
    case PEUnary(_, a) => ty := Typecheck(a, varsToType);
    case PEBinary(_, l, r) =>
      var ty1 := Typecheck(l, varsToType);
      var ty2 := Typecheck(r, varsToType);
      ty := JoinType(ty1, ty2);
    case PETernary(_, _, _) => ty := BOT;
    case PEConcat(parms, repeat) =>
      var last := BOT;
      if repeat.Some? {
        last := Typecheck(repeat.value, varsToType);
      }
      assert parms[0..] == parms;
      for idx := 0 to |parms|
        invariant JoinAll(last, parms[idx..], varsToType) == TypeOf(e, varsToType)
      {
        assert parms[idx..][1..] == parms[idx + 1..];
        var part := Typecheck(parms[idx], varsToType);
        last := JoinType(last, part);
      }
      ty := last;
    case PECall(_, _) => ty := BOT;
  }

  /** The names whose labels enter: none under a ternary, a call or an index. */
  function SeenNames(e: PExpr): set<string>
    decreases e
  {
    match e
    case PENumber(_) => {}
    case PEString(_) => {}
    case PEIdent(x, _) => {x}
    case PEUnary(_, a) => SeenNames(a)
    case PEBinary(_, l, r) => SeenNames(l) + SeenNames(r)
    case PETernary(_, _, _) => {}
    case PEConcat(parms, None) => AllSeen(parms)
    case PEConcat(parms, Some(n)) => SeenNames(n) + AllSeen(parms)
    case PECall(_, _) => {}
  }

  function AllSeen(es: seq<PExpr>): set<string>
    decreases es
  {
    if es == [] then {} else SeenNames(es[0]) + AllSeen(es[1..])
  }

  predicate AllBelow<L>(lat: Lattice<L>, names: set<string>, env: Env, b: L) {
    forall x <- names :: lat.leq(Level(lat, Binding(env, x)), b)
  }

  /** The label of an expression is the least upper bound of the labels of the names it
      sees, in every lattice. */
  lemma {:induction false} TypeIsLeastUpperBound<L(!new)>(lat: Lattice<L>, e: PExpr, env: Env, b: L)
    requires IsLattice(lat)
    ensures lat.leq(Level(lat, TypeOf(e, env)), b) <==> AllBelow(lat, SeenNames(e), env, b)
    decreases e
  {
    match e
    case PENumber(_) =>
    case PEString(_) =>
    case PEIdent(x, _) =>
    case PEUnary(_, a) => TypeIsLeastUpperBound(lat, a, env, b);
    case PEBinary(_, l, r) => TypeIsLeastUpperBound(lat, l, env, b); TypeIsLeastUpperBound(lat, r, env, b);
    case PETernary(_, _, _) =>
    case PEConcat(parms, None) => JoinAllIsLeast(lat, BOT, parms, env, b);
    case PEConcat(parms, Some(n)) =>
      TypeIsLeastUpperBound(lat, n, env, b);
      JoinAllIsLeast(lat, TypeOf(n, env), parms, env, b);
    case PECall(_, _) =>
  }

  lemma {:induction false} JoinAllIsLeast<L(!new)>(lat: Lattice<L>, last: SecType, es: seq<PExpr>, env: Env, b: L)
    requires IsLattice(lat)
    ensures lat.leq(Level(lat, JoinAll(last, es, env)), b)
       <==> lat.leq(Level(lat, last), b) && AllBelow(lat, AllSeen(es), env, b)
    decreases es
  {
    if es != [] {
      TypeIsLeastUpperBound(lat, es[0], env, b);
      JoinAllIsLeast(lat, JoinType(last, TypeOf(es[0], env)), es[1..], env, b);
    }
  }

  /** The names of an expression an observer at level `o` can read. */
  function Readable<L>(lat: Lattice<L>, e: PExpr, env: Env, o: L): set<string> {
    set x <- Names(e) | lat.leq(Level(lat, Binding(env, x)), o)
  }

  /** Whoever may read the expression by its label learns nothing beyond what may be
      read directly, under every labelling of the names. */
  ghost predicate Noninterfering<L(!new)>(lat: Lattice<L>, e: PExpr) {
    forall env: Env, o: L | lat.leq(Level(lat, TypeOf(e, env)), o) :: Determines(Readable(lat, e, env, o), e)
  }

  /** Labels are noninterfering for exactly the expressions that see all their names. */
  lemma NoninterferenceExact<L(!new)>(lat: Lattice<L>, e: PExpr)
    requires IsLattice(lat) && !lat.leq(lat.top, lat.bot)
    ensures Noninterfering(lat, e) <==> Names(e) <= SeenNames(e)
  {
    if Names(e) <= SeenNames(e) {
      forall env: Env, o: L | lat.leq(Level(lat, TypeOf(e, env)), o)
        ensures Determines(Readable(lat, e, env, o), e)
      {
        TypeIsLeastUpperBound(lat, e, env, o);
        DeterminesExact(Readable(lat, e, env, o), e);
      }
    } else {
      var env: Env := map x | x in SeenNames(e) :: BOT;
      TypeIsLeastUpperBound(lat, e, env, lat.bot);
      DeterminesExact(Readable(lat, e, env, lat.bot), e);
    }
  }

  /** No index, no ternary and no call occurs. */
  predicate Plain(e: PExpr)
    decreases e
  {
    match e
    case PENumber(_) => true
    case PEString(_) => true
    case PEIdent(_, index) => index == []
    case PEUnary(_, a) => Plain(a)
    case PEBinary(_, l, r) => Plain(l) && Plain(r)
    case PETernary(_, _, _) => false
    case PEConcat(parms, n) => (forall i | 0 <= i < |parms| :: Plain(parms[i])) && (n.Some? ==> Plain(n.value))
    case PECall(_, _) => false
  }

  lemma {:induction false} PlainSeesNames(e: PExpr)
    ensures SeenNames(e) <= Names(e)
    ensures Plain(e) ==> SeenNames(e) == Names(e)
    decreases e
  {
    match e
    case PENumber(_) =>
    case PEString(_) =>
    case PEIdent(_, _) =>
    case PEUnary(_, a) => PlainSeesNames(a);
    case PEBinary(_, l, r) => PlainSeesNames(l); PlainSeesNames(r);
    case PETernary(_, _, _) =>
    case PEConcat(parms, None) => PlainSeesAll(parms);
    case PEConcat(parms, Some(n)) => PlainSeesAll(parms); PlainSeesNames(n);
    case PECall(_, _) =>
  }

  lemma {:induction false} PlainSeesAll(es: seq<PExpr>)
    ensures AllSeen(es) <= AllNames(es)
    ensures (forall i | 0 <= i < |es| :: Plain(es[i])) ==> AllSeen(es) == AllNames(es)
    decreases es
  {
    if es != [] {
      PlainSeesNames(es[0]);
      PlainSeesAll(es[1..]);
    }
  }

  /** On plain expressions with constant repeat counts the two analyses meet: the label
      is the least upper bound of the labels of exactly the collected names, and both
      are noninterfering. Without the count's constancy the label still is. */
  lemma PlainAnalysesAgree<L(!new)>(lat: Lattice<L>, e: PExpr, env: Env, b: L)
    requires IsLattice(lat) && !lat.leq(lat.top, lat.bot)
    requires Plain(e)
    ensures Noninterfering(lat, e)
    ensures Closed(e) ==> Determines(CollectedNames(e), e)
    ensures Closed(e) ==> (lat.leq(Level(lat, TypeOf(e, env)), b) <==> AllBelow(lat, CollectedNames(e), env, b))
  {
    PlainSeesNames(e);
    NoninterferenceExact(lat, e);
    CollectsNames(e);
    CollectedDetermine(e);
    TypeIsLeastUpperBound(lat, e, env, b);
  }

  /** A ternary or a call is given the bottom label whatever it reads, and an index is
      not looked at. */
  lemma UnseenForms<L(!new)>(lat: Lattice<L>, x: string, y: string)
    requires IsLattice(lat) && !lat.leq(lat.top, lat.bot) && x != y
    ensures !Noninterfering(lat, PETernary(PEIdent(x, []), PENumber([]), PENumber([])))
    ensures !Noninterfering(lat, PECall("f", [PEIdent(x, [])]))
    ensures !Noninterfering(lat, PEIdent(y, [SelBit(PEIdent(x, []))]))
  {
    NoninterferenceExact(lat, PETernary(PEIdent(x, []), PENumber([]), PENumber([])));
    assert x in Names(PETernary(PEIdent(x, []), PENumber([]), PENumber([])));
    NoninterferenceExact(lat, PECall("f", [PEIdent(x, [])]));
    assert x in AllNames([PEIdent(x, [])]);
    NoninterferenceExact(lat, PEIdent(y, [SelBit(PEIdent(x, []))]));
    assert x in SelNames(SelBit(PEIdent(x, [])));
    assert x in IndexNames([SelBit(PEIdent(x, []))]);
  }
}
