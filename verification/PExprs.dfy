/** Parsed expressions and what they evaluate to, for any meaning of the operators. */
module PExprs {
  import opened Verinum

  datatype Option<+T> = None | Some(value: T)

  /** An index component of an identifier: a bit, a part, or an indexed part. */
  datatype Sel =
    | SelBit(msb: PExpr)
    | SelPart(msb: PExpr, lsb: PExpr)
    | SelUp(msb: PExpr, wid: PExpr)
    | SelDown(msb: PExpr, wid: PExpr)

  datatype SelKind = Bit | Part | Up | Down

  datatype PExpr =
    | PENumber(value: Bits)
    | PEString(text: string)
    | PEIdent(name: string, index: seq<Sel>)
    | PEUnary(op: char, expr: PExpr)
    | PEBinary(op: char, left: PExpr, right: PExpr)
    | PETernary(cond: PExpr, tru: PExpr, fal: PExpr)
    | PEConcat(parms: seq<PExpr>, repeat: Option<PExpr>)
    | PECall(fn: string, args: seq<PExpr>)

  /** The meaning of the operators over a domain of values; `update` replaces the selected
      part of a value. Nothing is assumed of it unless a lemma says so. */
  datatype Interp<!A> = Interp(
    number: Bits -> A,
    text: string -> A,
    undef: A,
    select: (A, seq<SelKind>, seq<A>) -> A,
    update: (A, seq<SelKind>, seq<A>, A) -> A,
    unary: (char, A) -> A,
    binary: (char, A, A) -> A,
    ternary: (A, A, A) -> A,
    concat: (seq<A>, seq<A>) -> A,
    call: (string, seq<A>) -> A)

  function Lookup<A>(I: Interp<A>, s: map<string, A>, x: string): A {
    if x in s then s[x] else I.undef
  }

  function Kinds(index: seq<Sel>): seq<SelKind> {
    seq(|index|, i requires 0 <= i < |index| =>
      match index[i]
      case SelBit(_) => Bit
      case SelPart(_, _) => Part
      case SelUp(_, _) => Up
      case SelDown(_, _) => Down)
  }

  function Eval<A>(I: Interp<A>, e: PExpr, s: map<string, A>): A
    decreases e
  {
    match e
    case PENumber(v) => I.number(v)
    case PEString(t) => I.text(t)
    case PEIdent(x, index) =>
      if index == [] then Lookup(I, s, x)
      else I.select(Lookup(I, s, x), Kinds(index), EvalIndex(I, index, s))
    case PEUnary(op, a) => I.unary(op, Eval(I, a, s))
    case PEBinary(op, l, r) => I.binary(op, Eval(I, l, s), Eval(I, r, s))
    case PETernary(c, t, f) => I.ternary(Eval(I, c, s), Eval(I, t, s), Eval(I, f, s))
    case PEConcat(parms, None) => I.concat(EvalAll(I, parms, s), [])
    case PEConcat(parms, Some(n)) => I.concat(EvalAll(I, parms, s), [Eval(I, n, s)])
    case PECall(fn, args) => I.call(fn, EvalAll(I, args, s))
  }

  function EvalAll<A>(I: Interp<A>, es: seq<PExpr>, s: map<string, A>): seq<A>
    decreases es
  {
    if es == [] then [] else [Eval(I, es[0], s)] + EvalAll(I, es[1..], s)
  }

  function EvalIndex<A>(I: Interp<A>, index: seq<Sel>, s: map<string, A>): seq<A>
    decreases index
  {
    if index == [] then []
    else EvalSel(I, index[0], s) + EvalIndex(I, index[1..], s)
  }

  function EvalSel<A>(I: Interp<A>, sel: Sel, s: map<string, A>): seq<A>
    decreases sel
  {
    match sel
    case SelBit(m) => [Eval(I, m, s)]
    case SelPart(m, l) => [Eval(I, m, s), Eval(I, l, s)]
    case SelUp(m, w) => [Eval(I, m, s), Eval(I, w, s)]
    case SelDown(m, w) => [Eval(I, m, s), Eval(I, w, s)]
  }

  /** Every name an expression mentions, wherever it stands. */
  function Names(e: PExpr): set<string>
    decreases e
  {
    match e
    case PENumber(_) => {}
    case PEString(_) => {}
    case PEIdent(x, index) => {x} + IndexNames(index)
    case PEUnary(_, a) => Names(a)
    case PEBinary(_, l, r) => Names(l) + Names(r)
    case PETernary(c, t, f) => Names(c) + Names(t) + Names(f)
    case PEConcat(parms, None) => AllNames(parms)
    case PEConcat(parms, Some(n)) => AllNames(parms) + Names(n)
    case PECall(_, args) => AllNames(args)
  }

  function AllNames(es: seq<PExpr>): set<string>
    decreases es
  {
    if es == [] then {} else Names(es[0]) + AllNames(es[1..])
  }

  function IndexNames(index: seq<Sel>): set<string>
    decreases index
  {
    if index == [] then {} else SelNames(index[0]) + IndexNames(index[1..])
  }

  function SelNames(sel: Sel): set<string>
    decreases sel
  {
    match sel
    case SelBit(m) => Names(m)
    case SelPart(m, l) => Names(m) + Names(l)
    case SelUp(m, w) => Names(m) + Names(w)
    case SelDown(m, w) => Names(m) + Names(w)
  }

  predicate Agree<A(==)>(I: Interp<A>, names: set<string>, s: map<string, A>, s': map<string, A>) {
    forall x <- names :: Lookup(I, s, x) == Lookup(I, s', x)
  }

  /** An expression reads nothing but the names it mentions. */
  lemma {:induction false} EvalAgrees<A>(I: Interp<A>, e: PExpr, s: map<string, A>, s': map<string, A>)
    requires Agree(I, Names(e), s, s')
    ensures Eval(I, e, s) == Eval(I, e, s')
    decreases e
  {
    match e
    case PENumber(_) =>
    case PEString(_) =>
    case PEIdent(_, index) => EvalIndexAgrees(I, index, s, s');
    case PEUnary(_, a) => EvalAgrees(I, a, s, s');
    case PEBinary(_, l, r) => EvalAgrees(I, l, s, s'); EvalAgrees(I, r, s, s');
    case PETernary(c, t, f) => EvalAgrees(I, c, s, s'); EvalAgrees(I, t, s, s'); EvalAgrees(I, f, s, s');
    case PEConcat(parms, None) => EvalAllAgrees(I, parms, s, s');
    case PEConcat(parms, Some(n)) => EvalAllAgrees(I, parms, s, s'); EvalAgrees(I, n, s, s');
    case PECall(_, args) => EvalAllAgrees(I, args, s, s');
  }

  lemma {:induction false} EvalAllAgrees<A>(I: Interp<A>, es: seq<PExpr>, s: map<string, A>, s': map<string, A>)
    requires Agree(I, AllNames(es), s, s')
    ensures EvalAll(I, es, s) == EvalAll(I, es, s')
    decreases es
  {
    if es != [] {
      EvalAgrees(I, es[0], s, s');
      EvalAllAgrees(I, es[1..], s, s');
    }
  }

  lemma {:induction false} EvalIndexAgrees<A>(I: Interp<A>, index: seq<Sel>, s: map<string, A>, s': map<string, A>)
    requires Agree(I, IndexNames(index), s, s')
    ensures EvalIndex(I, index, s) == EvalIndex(I, index, s')
    decreases index
  {
    if index != [] {
      EvalSelAgrees(I, index[0], s, s');
      EvalIndexAgrees(I, index[1..], s, s');
    }
  }

  lemma {:induction false} EvalSelAgrees<A>(I: Interp<A>, sel: Sel, s: map<string, A>, s': map<string, A>)
    requires Agree(I, SelNames(sel), s, s')
    ensures EvalSel(I, sel, s) == EvalSel(I, sel, s')
    decreases sel
  {
    match sel
    case SelBit(m) => EvalAgrees(I, m, s, s');
    case SelPart(m, l) => EvalAgrees(I, m, s, s'); EvalAgrees(I, l, s, s');
    case SelUp(m, w) => EvalAgrees(I, m, s, s'); EvalAgrees(I, w, s, s');
    case SelDown(m, w) => EvalAgrees(I, m, s, s'); EvalAgrees(I, w, s, s');
  }
}
