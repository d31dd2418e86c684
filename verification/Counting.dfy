/** An interpretation that makes every name count: the value of an expression grows
    strictly with the value of each name in it. It witnesses that a name matters. */
module Counting {
  import opened PExprs
  import opened Polarity

  function Sum(xs: seq<int>): int {
    if xs == [] then 0 else xs[0] + Sum(xs[1..])
  }

  /** With `fixed` the operators of conditions keep their two-valued meaning. */
  function CountingInterp(fixed: bool): Interp<int> {
    Interp(
      n => 0, t => 0, 0,
      (v, kinds, xs) => v + Sum(xs) + 1,
      (v, kinds, xs, part) => v + Sum(xs) + part,
      (op, x) => if fixed && op == 'N' then (if x == 0 then 1 else 0) else x + 1,
      (op, x, y) => if fixed && FixedBinary(op) then FixedValue(op, x, y) else x + y + 1,
      (c, t, f) => if fixed then (if c != 0 then t else f) else c + t + f + 1,
      (xs, n) => Sum(xs) + Sum(n) + 1,
      (fn, xs) => Sum(xs) + 1)
  }

  predicate FixedBinary(op: char) {
    op == 'a' || op == 'o' || op == 'e' || op == 'n' || op == 'L'
  }

  function FixedValue(op: char, x: int, y: int): int {
    var holds :=
      if op == 'a' then x != 0 && y != 0
      else if op == 'o' then x != 0 || y != 0
      else if op == 'e' then x == y
      else if op == 'n' then x != y
      else x <= y;
    if holds then 1 else 0
  }

  lemma CountingTwoValued()
    ensures TwoValued(CountingInterp(true))
  {
    var I := CountingInterp(true);
    forall x: int, y: int
      ensures I.binary('a', x, y) == FixedValue('a', x, y)
      ensures I.binary('o', x, y) == FixedValue('o', x, y)
      ensures I.binary('e', x, y) == FixedValue('e', x, y)
      ensures I.binary('n', x, y) == FixedValue('n', x, y)
      ensures I.binary('L', x, y) == FixedValue('L', x, y)
    {
    }
  }

  /** No operator with a fixed meaning occurs. */
  predicate Free(e: PExpr)
    decreases e
  {
    match e
    case PENumber(_) => true
    case PEString(_) => true
    case PEIdent(_, index) => forall i | 0 <= i < |index| :: FreeSel(index[i])
    case PEUnary(op, a) => op != 'N' && Free(a)
    case PEBinary(op, l, r) => !FixedBinary(op) && Free(l) && Free(r)
    case PETernary(_, _, _) => false
    case PEConcat(parms, n) => (forall i | 0 <= i < |parms| :: Free(parms[i])) && (n.Some? ==> Free(n.value))
    case PECall(_, args) => forall i | 0 <= i < |args| :: Free(args[i])
  }

  predicate FreeSel(sel: Sel)
    decreases sel
  {
    match sel
    case SelBit(m) => Free(m)
    case SelPart(m, l) => Free(m) && Free(l)
    case SelUp(m, w) => Free(m) && Free(w)
    case SelDown(m, w) => Free(m) && Free(w)
  }

  type Store = map<string, int>

  predicate NonNegative(s: Store) {
    forall x | x in s :: s[x] >= 0
  }

  predicate Admissible(fixed: bool, e: PExpr) {
    fixed ==> Free(e)
  }

  predicate AllAdmissible(fixed: bool, es: seq<PExpr>) {
    fixed ==> forall i | 0 <= i < |es| :: Free(es[i])
  }

  predicate IndexAdmissible(fixed: bool, index: seq<Sel>) {
    fixed ==> forall i | 0 <= i < |index| :: FreeSel(index[i])
  }

  /** Raising one name raises the values of the expressions that mention it, and no
      value falls below zero. */
  predicate Raised(names: set<string>, x: string, v: int, v': int) {
    0 <= v <= v' && (x in names ==> v < v')
  }

  lemma {:induction false} Raise(fixed: bool, e: PExpr, s: Store, x: string, n: int)
    requires Admissible(fixed, e) && NonNegative(s)
    requires n > Lookup(CountingInterp(fixed), s, x)
    ensures var I := CountingInterp(fixed); Raised(Names(e), x, Eval(I, e, s), Eval(I, e, s[x := n]))
    decreases e
  {
    match e
    case PENumber(_) =>
    case PEString(_) =>
    case PEIdent(_, index) => RaiseIndex(fixed, index, s, x, n);
    case PEUnary(_, a) => Raise(fixed, a, s, x, n);
    case PEBinary(_, l, r) => Raise(fixed, l, s, x, n); Raise(fixed, r, s, x, n);
    case PETernary(c, t, f) => Raise(fixed, c, s, x, n); Raise(fixed, t, s, x, n); Raise(fixed, f, s, x, n);
    case PEConcat(parms, rep) =>
      RaiseAll(fixed, parms, s, x, n);
      if rep.Some? {
        Raise(fixed, rep.value, s, x, n);
        SumOne(Eval(CountingInterp(fixed), rep.value, s));
        SumOne(Eval(CountingInterp(fixed), rep.value, s[x := n]));
      }
    case PECall(_, args) => RaiseAll(fixed, args, s, x, n);
  }

  lemma SumOne(v: int)
    ensures Sum([v]) == v
  {
    assert [v][1..] == [];
  }

  lemma {:induction false} SumAppend(a: seq<int>, b: seq<int>)
    ensures Sum(a + b) == Sum(a) + Sum(b)
  {
    if a == [] {
      assert a + b == b;
    } else {
      assert (a + b)[1..] == a[1..] + b;
      SumAppend(a[1..], b);
    }
  }

  lemma {:induction false} RaiseAll(fixed: bool, es: seq<PExpr>, s: Store, x: string, n: int)
    requires AllAdmissible(fixed, es) && NonNegative(s)
    requires n > Lookup(CountingInterp(fixed), s, x)
    ensures var I := CountingInterp(fixed);
            Raised(AllNames(es), x, Sum(EvalAll(I, es, s)), Sum(EvalAll(I, es, s[x := n])))
    decreases es
  {
    if es != [] {
      var I := CountingInterp(fixed);
      Raise(fixed, es[0], s, x, n);
      RaiseAll(fixed, es[1..], s, x, n);
      SumAppend([Eval(I, es[0], s)], EvalAll(I, es[1..], s));
      SumAppend([Eval(I, es[0], s[x := n])], EvalAll(I, es[1..], s[x := n]));
      SumOne(Eval(I, es[0], s));
      SumOne(Eval(I, es[0], s[x := n]));
    }
  }

  lemma {:induction false} RaiseIndex(fixed: bool, index: seq<Sel>, s: Store, x: string, n: int)
    requires IndexAdmissible(fixed, index) && NonNegative(s)
    requires n > Lookup(CountingInterp(fixed), s, x)
    ensures var I := CountingInterp(fixed);
            Raised(IndexNames(index), x, Sum(EvalIndex(I, index, s)), Sum(EvalIndex(I, index, s[x := n])))
    decreases index
  {
    if index != [] {
      var I := CountingInterp(fixed);
      RaiseSel(fixed, index[0], s, x, n);
      RaiseIndex(fixed, index[1..], s, x, n);
      SumAppend(EvalSel(I, index[0], s), EvalIndex(I, index[1..], s));
      SumAppend(EvalSel(I, index[0], s[x := n]), EvalIndex(I, index[1..], s[x := n]));
    }
  }

  lemma SumTwo(v: int, w: int)
    ensures Sum([v, w]) == v + w
  {
    assert [v, w][1..] == [w];
    SumOne(w);
  }

  lemma {:induction false} RaiseSel(fixed: bool, sel: Sel, s: Store, x: string, n: int)
    requires fixed ==> FreeSel(sel)
    requires NonNegative(s) && n > Lookup(CountingInterp(fixed), s, x)
    ensures var I := CountingInterp(fixed);
            Raised(SelNames(sel), x, Sum(EvalSel(I, sel, s)), Sum(EvalSel(I, sel, s[x := n])))
    decreases sel
  {
    var I, s' := CountingInterp(fixed), s[x := n];
    if sel.SelBit? {
      Raise(fixed, sel.msb, s, x, n);
      SumOne(Eval(I, sel.msb, s));
      SumOne(Eval(I, sel.msb, s'));
    } else {
      var a, b := sel.msb, if sel.SelPart? then sel.lsb else sel.wid;
      Raise(fixed, a, s, x, n);
      Raise(fixed, b, s, x, n);
      SumTwo(Eval(I, a, s), Eval(I, b, s));
      SumTwo(Eval(I, a, s'), Eval(I, b, s'));
    }
  }

  /** A value is at least that of each of its names, and more unless it is the name. */
  lemma {:induction false} Exceeds(e: PExpr, s: Store, x: string)
    requires Free(e) && NonNegative(s)
    ensures var I := CountingInterp(true);
            && Eval(I, e, s) >= 0
            && (x in Names(e) ==> Eval(I, e, s) >= Lookup(I, s, x) + (if e == PEIdent(x, []) then 0 else 1))
    decreases e
  {
    match e
    case PENumber(_) =>
    case PEString(_) =>
    case PEIdent(name, index) =>
      ExceedsIndex(index, s, x);
      var I := CountingInterp(true);
      if index == [] {
        assert IndexNames(index) == {} && e == PEIdent(name, []);
        assert Eval(I, e, s) == Lookup(I, s, name);
      } else {
        assert Eval(I, e, s) == Lookup(I, s, name) + Sum(EvalIndex(I, index, s)) + 1;
      }
    case PEUnary(_, a) => Exceeds(a, s, x);
    case PEBinary(_, l, r) => Exceeds(l, s, x); Exceeds(r, s, x);
    case PETernary(c, t, f) =>
    case PEConcat(parms, rep) =>
      ExceedsAll(parms, s, x);
      if rep.Some? {
        Exceeds(rep.value, s, x);
        SumOne(Eval(CountingInterp(true), rep.value, s));
      }
    case PECall(_, args) => ExceedsAll(args, s, x);
  }

  lemma {:induction false} ExceedsAll(es: seq<PExpr>, s: Store, x: string)
    requires AllAdmissible(true, es) && NonNegative(s)
    ensures var I := CountingInterp(true); var v := Sum(EvalAll(I, es, s));
            v >= 0 && (x in AllNames(es) ==> v >= Lookup(I, s, x))
    decreases es
  {
    if es != [] {
      var I := CountingInterp(true);
      Exceeds(es[0], s, x);
      ExceedsAll(es[1..], s, x);
      SumAppend([Eval(I, es[0], s)], EvalAll(I, es[1..], s));
      SumOne(Eval(I, es[0], s));
    }
  }

  lemma {:induction false} ExceedsIndex(index: seq<Sel>, s: Store, x: string)
    requires IndexAdmissible(true, index) && NonNegative(s)
    ensures var I := CountingInterp(true); var v := Sum(EvalIndex(I, index, s));
            v >= 0 && (x in IndexNames(index) ==> v >= Lookup(I, s, x))
    decreases index
  {
    if index != [] {
      var I := CountingInterp(true);
      ExceedsSel(index[0], s, x);
      ExceedsIndex(index[1..], s, x);
      SumAppend(EvalSel(I, index[0], s), EvalIndex(I, index[1..], s));
    }
  }

  lemma {:induction false} ExceedsSel(sel: Sel, s: Store, x: string)
    requires FreeSel(sel) && NonNegative(s)
    ensures var I := CountingInterp(true); var v := Sum(EvalSel(I, sel, s));
            v >= 0 && (x in SelNames(sel) ==> v >= Lookup(I, s, x))
    decreases sel
  {
    var I := CountingInterp(true);
    if sel.SelBit? {
      Exceeds(sel.msb, s, x);
      SumOne(Eval(I, sel.msb, s));
    } else {
      var a, b := sel.msb, if sel.SelPart? then sel.lsb else sel.wid;
      Exceeds(a, s, x);
      Exceeds(b, s, x);
      SumTwo(Eval(I, a, s), Eval(I, b, s));
    }
  }

  // The sums alone.

  /** The value of an expression is 0 exactly when all of its names are 0. */
  function SummingInterp(): Interp<int> {
    Interp(
      n => 0, t => 0, 0,
      (v, kinds, xs) => v + Sum(xs),
      (v, kinds, xs, part) => v + Sum(xs) + part,
      (op, x) => if op == 'N' then (if x == 0 then 1 else 0) else x,
      (op, x, y) => if FixedBinary(op) then FixedValue(op, x, y) else x + y,
      (c, t, f) => if c != 0 then t else f,
      (xs, n) => Sum(xs) + Sum(n),
      (fn, xs) => Sum(xs))
  }

  lemma SummingTwoValued()
    ensures TwoValued(SummingInterp())
  {
    var I := SummingInterp();
    forall x: int, y: int
      ensures I.binary('a', x, y) == FixedValue('a', x, y)
      ensures I.binary('o', x, y) == FixedValue('o', x, y)
      ensures I.binary('e', x, y) == FixedValue('e', x, y)
      ensures I.binary('n', x, y) == FixedValue('n', x, y)
      ensures I.binary('L', x, y) == FixedValue('L', x, y)
    {
    }
  }

  predicate ZeroOn(names: set<string>, s: Store) {
    forall x <- names :: x in s ==> s[x] == 0
  }

  /** A sum of natural numbers is 0 exactly when they are. */
  predicate Zeroed(v: int, names: set<string>, s: Store) {
    v >= 0 && (v == 0 <==> ZeroOn(names, s))
  }

  lemma {:induction false} SumsZero(e: PExpr, s: Store)
    requires Free(e) && NonNegative(s)
    ensures Zeroed(Eval(SummingInterp(), e, s), Names(e), s)
    decreases e
  {
    match e
    case PENumber(_) =>
    case PEString(_) =>
    case PEIdent(_, index) =>
      IndexSumsZero(index, s);
      assert index == [] ==> IndexNames(index) == {};
    case PEUnary(_, a) => SumsZero(a, s);
    case PEBinary(_, l, r) => SumsZero(l, s); SumsZero(r, s);
    case PEConcat(parms, rep) =>
      AllSumsZero(parms, s);
      if rep.Some? {
        SumsZero(rep.value, s);
        SumOne(Eval(SummingInterp(), rep.value, s));
      }
    case PECall(_, args) => AllSumsZero(args, s);
  }

  lemma {:induction false} AllSumsZero(es: seq<PExpr>, s: Store)
    requires AllAdmissible(true, es) && NonNegative(s)
    ensures Zeroed(Sum(EvalAll(SummingInterp(), es, s)), AllNames(es), s)
    decreases es
  {
    if es != [] {
      var I := SummingInterp();
      SumsZero(es[0], s);
      AllSumsZero(es[1..], s);
      SumAppend([Eval(I, es[0], s)], EvalAll(I, es[1..], s));
      SumOne(Eval(I, es[0], s));
    }
  }

  lemma {:induction false} IndexSumsZero(index: seq<Sel>, s: Store)
    requires IndexAdmissible(true, index) && NonNegative(s)
    ensures Zeroed(Sum(EvalIndex(SummingInterp(), index, s)), IndexNames(index), s)
    decreases index
  {
    if index != [] {
      var I := SummingInterp();
      SelSumsZero(index[0], s);
      IndexSumsZero(index[1..], s);
      SumAppend(EvalSel(I, index[0], s), EvalIndex(I, index[1..], s));
    }
  }

  lemma {:induction false} SelSumsZero(sel: Sel, s: Store)
    requires FreeSel(sel) && NonNegative(s)
    ensures Zeroed(Sum(EvalSel(SummingInterp(), sel, s)), SelNames(sel), s)
    decreases sel
  {
    var I := SummingInterp();
    if sel.SelBit? {
      SumsZero(sel.msb, s);
      SumOne(Eval(I, sel.msb, s));
    } else {
      var a, b := sel.msb, if sel.SelPart? then sel.lsb else sel.wid;
      SumsZero(a, s);
      SumsZero(b, s);
      SumTwo(Eval(I, a, s), Eval(I, b, s));
    }
  }
}
