/** The names an expression's flow constraints mention (`typecheckstring` in PExpr.h),
    and exactly when they determine its value. */
module Flow {
  import opened PExprs
  import opened Counting

  /** The collected parts of one index component: a width is not among them. */
  function SelExpressions(sel: Sel): seq<PExpr> {
    match sel
    case SelBit(m) => [m]
    case SelPart(m, l) => [m, l]
    case SelUp(m, _) => [m]
    case SelDown(m, _) => [m]
  }

  function IndexExpressions(index: seq<Sel>): seq<PExpr> {
    if index == [] then [] else SelExpressions(index[0]) + IndexExpressions(index[1..])
  }

  /** The collected names, in order. */
  function Collect(e: PExpr): seq<string>
    decreases e
  {
    match e
    case PENumber(_) => []
    case PEString(_) => []
    case PEIdent(x, index) => [x] + CollectIndex(index)
    case PEUnary(_, a) => Collect(a)
    case PEBinary(_, l, r) => Collect(l) + Collect(r)
    case PETernary(c, t, f) => Collect(c) + Collect(t) + Collect(f)
    case PEConcat(parms, _) => CollectAll(parms)
    case PECall(_, args) => CollectAll(args)
  }

  function CollectAll(es: seq<PExpr>): seq<string>
    decreases es
  {
    if es == [] then [] else Collect(es[0]) + CollectAll(es[1..])
  }

  function CollectIndex(index: seq<Sel>): seq<string>
    decreases index
  {
    if index == [] then [] else CollectSel(index[0]) + CollectIndex(index[1..])
  }

  function CollectSel(sel: Sel): seq<string>
    decreases sel
  {
    match sel
    case SelBit(m) => Collect(m)
    case SelPart(m, l) => Collect(m) + Collect(l)
    case SelUp(m, _) => Collect(m)
    case SelDown(m, _) => Collect(m)
  }

  function CollectedNames(e: PExpr): set<string> {
    set x <- Collect(e)
  }

  // Collection, as the source's loops do it.

  method TypecheckString(e: PExpr) returns (ret: seq<string>)
    ensures ret == Collect(e)
    decreases e
  {
    match e
    case PENumber(_) => ret := [];
    case PEString(_) => ret := [];
    case PEIdent(x, index) =>
      var indices := GetIndexExpressions(index);
      CollectIndexAll(index);
      Below(e, 0);
      assert index[0..] == index;
      var results := TypecheckIndices(e, indices);
      ret := [x] + results;
    case PEUnary(_, a) => ret := TypecheckString(a);
    case PEBinary(_, l, r) =>
      ret := TypecheckString(l);
      var right := TypecheckString(r);
      ret := ret + right;
    case PETernary(c, t, f) =>
      ret := TypecheckString(c);
      var tru := TypecheckString(t);
      var fal := TypecheckString(f);
      ret := ret + tru + fal;
    case PEConcat(parms, _) => ret := TypecheckStrings(parms);
    case PECall(_, args) => ret := TypecheckStrings(args);
  }

  method TypecheckIndices(e: PExpr, indices: seq<PExpr>) returns (ret: seq<string>)
    requires forall sub <- indices :: sub < e
    ensures ret == CollectAll(indices)
    decreases e, 0
  {
    ret := [];
    assert indices[0..] == indices;
    for k := 0 to |indices|
      invariant ret + CollectAll(indices[k..]) == CollectAll(indices)
    {
      assert indices[k..][1..] == indices[k + 1..];
      assert indices[k] in indices;
      var results := TypecheckString(indices[k]);
      ret := ret + results;
    }
  }

  method TypecheckStrings(es: seq<PExpr>) returns (ret: seq<string>)
    ensures ret == CollectAll(es)
    decreases es
  {
    ret := [];
    assert es[0..] == es;
    for k := 0 to |es|
      invariant ret + CollectAll(es[k..]) == CollectAll(es)
    {
      assert es[k..][1..] == es[k + 1..];
      var results := TypecheckString(es[k]);
      ret := ret + results;
    }
  }

  method GetIndexExpressions(index: seq<Sel>) returns (indices: seq<PExpr>)
    ensures indices == IndexExpressions(index)
  {
    indices := [];
    assert index[0..] == index;
    for k := 0 to |index|
      invariant indices + IndexExpressions(index[k..]) == IndexExpressions(index)
    {
      IndexStep(index, k, indices);
      indices := PushIndex(indices, index[k]);
    }
  }

  lemma IndexStep(index: seq<Sel>, k: nat, before: seq<PExpr>)
    requires k < |index|
    ensures before + IndexExpressions(index[k..])
            == (before + SelExpressions(index[k])) + IndexExpressions(index[k + 1..])
  {
    assert index[k..][1..] == index[k + 1..];
  }

  method PushIndex(before: seq<PExpr>, sel: Sel) returns (indices: seq<PExpr>)
    ensures indices == before + SelExpressions(sel)
  {
    indices := before;
    match sel
    case SelBit(m) => indices := indices + [m];
    case SelPart(m, l) => indices := indices + [m]; indices := indices + [l];
    case SelUp(m, _) => indices := indices + [m];
    case SelDown(m, _) => indices := indices + [m];
  }

  lemma {:induction false} Below(e: PExpr, k: nat)
    requires e.PEIdent? && k <= |e.index|
    ensures forall sub <- IndexExpressions(e.index[k..]) :: sub < e
    decreases |e.index| - k
  {
    if k < |e.index| {
      Below(e, k + 1);
      assert e.index[k..][1..] == e.index[k + 1..];
      BelowSel(e, e.index[k]);
    }
  }

  lemma BelowSel(e: PExpr, sel: Sel)
    requires e.PEIdent? && sel in e.index
    ensures forall sub <- SelExpressions(sel) :: sub < e
  {
  }

  lemma {:induction false} CollectIndexAll(index: seq<Sel>)
    ensures CollectAll(IndexExpressions(index)) == CollectIndex(index)
  {
    if index != [] {
      CollectIndexAll(index[1..]);
      CollectAllAppend(SelExpressions(index[0]), IndexExpressions(index[1..]));
      CollectSelAll(index[0]);
    }
  }

  lemma CollectSelAll(sel: Sel)
    ensures CollectAll(SelExpressions(sel)) == CollectSel(sel)
  {
    if sel.SelPart? {
      assert [sel.msb, sel.lsb][1..] == [sel.lsb];
      CollectOne(sel.lsb);
    } else {
      CollectOne(sel.msb);
    }
  }

  lemma CollectOne(e: PExpr)
    ensures CollectAll([e]) == Collect(e)
  {
    assert [e][1..] == [];
  }

  lemma {:induction false} CollectAllAppend(a: seq<PExpr>, b: seq<PExpr>)
    ensures CollectAll(a + b) == CollectAll(a) + CollectAll(b)
  {
    if a == [] {
      assert a + b == b;
    } else {
      assert (a + b)[1..] == a[1..] + b;
      CollectAllAppend(a[1..], b);
    }
  }

  // What the collected names determine.

  /** Every repeat count and every width of an indexed select is free of names. */
  predicate Closed(e: PExpr)
    decreases e
  {
    match e
    case PENumber(_) => true
    case PEString(_) => true
    case PEIdent(_, index) => forall i | 0 <= i < |index| :: ClosedSel(index[i])
    case PEUnary(_, a) => Closed(a)
    case PEBinary(_, l, r) => Closed(l) && Closed(r)
    case PETernary(c, t, f) => Closed(c) && Closed(t) && Closed(f)
    case PEConcat(parms, n) => (forall i | 0 <= i < |parms| :: Closed(parms[i])) && (n.Some? ==> Names(n.value) == {})
    case PECall(_, args) => forall i | 0 <= i < |args| :: Closed(args[i])
  }

  predicate ClosedSel(sel: Sel)
    decreases sel
  {
    match sel
    case SelBit(m) => Closed(m)
    case SelPart(m, l) => Closed(m) && Closed(l)
    case SelUp(m, w) => Closed(m) && Names(w) == {}
    case SelDown(m, w) => Closed(m) && Names(w) == {}
  }

  /** Nothing is collected that the expression does not mention, and of a closed
      expression every name is collected. */
  lemma {:induction false} CollectsNames(e: PExpr)
    ensures forall x <- Collect(e) :: x in Names(e)
    ensures Closed(e) ==> forall x <- Names(e) :: x in Collect(e)
    decreases e
  {
    match e
    case PENumber(_) =>
    case PEString(_) =>
    case PEIdent(_, index) => CollectsIndex(index);
    case PEUnary(_, a) => CollectsNames(a);
    case PEBinary(_, l, r) => CollectsNames(l); CollectsNames(r);
    case PETernary(c, t, f) => CollectsNames(c); CollectsNames(t); CollectsNames(f);
    case PEConcat(parms, _) => CollectsAll(parms);
    case PECall(_, args) => CollectsAll(args);
  }

  lemma {:induction false} CollectsAll(es: seq<PExpr>)
    ensures forall x <- CollectAll(es) :: x in AllNames(es)
    ensures (forall i | 0 <= i < |es| :: Closed(es[i])) ==> forall x <- AllNames(es) :: x in CollectAll(es)
    decreases es
  {
    if es != [] {
      CollectsNames(es[0]);
      CollectsAll(es[1..]);
    }
  }

  lemma {:induction false} CollectsIndex(index: seq<Sel>)
    ensures forall x <- CollectIndex(index) :: x in IndexNames(index)
    ensures (forall i | 0 <= i < |index| :: ClosedSel(index[i]))
        ==> forall x <- IndexNames(index) :: x in CollectIndex(index)
    decreases index
  {
    if index != [] {
      CollectsSel(index[0]);
      CollectsIndex(index[1..]);
    }
  }

  lemma {:induction false} CollectsSel(sel: Sel)
    ensures forall x <- CollectSel(sel) :: x in SelNames(sel)
    ensures ClosedSel(sel) ==> forall x <- SelNames(sel) :: x in CollectSel(sel)
    decreases sel
  {
    match sel
    case SelBit(m) => CollectsNames(m);
    case SelPart(m, l) => CollectsNames(m); CollectsNames(l);
    case SelUp(m, _) => CollectsNames(m);
    case SelDown(m, _) => CollectsNames(m);
  }

  /** Stores that agree on the given names give the expression one value, whatever the
      operators mean. */
  ghost predicate Determines(names: set<string>, e: PExpr) {
    forall I: Interp<int>, s: Store, s': Store | Agree(I, names, s, s') :: Eval(I, e, s) == Eval(I, e, s')
  }

  /** A set of names determines an expression exactly when it holds every name in it. */
  lemma DeterminesExact(names: set<string>, e: PExpr)
    ensures Determines(names, e) <==> Names(e) <= names
  {
    if Names(e) <= names {
      forall I: Interp<int>, s: Store, s': Store | Agree(I, names, s, s')
        ensures Eval(I, e, s) == Eval(I, e, s')
      {
        EvalAgrees(I, e, s, s');
      }
    } else {
      var x :| x in Names(e) && x !in names;
      var I, s: Store := CountingInterp(false), map[];
      Raise(false, e, s, x, 1);
      assert Agree(I, names, s, s[x := 1]);
      assert Eval(I, e, s) != Eval(I, e, s[x := 1]);
    }
  }

  /** Noninterference of the collected names, over every expression form: they determine
      the value exactly when they are all of its names, and always when the repeat
      counts and the widths of indexed selects are constant. */
  lemma CollectedDetermine(e: PExpr)
    ensures Determines(CollectedNames(e), e) <==> Names(e) == CollectedNames(e)
    ensures Closed(e) ==> Determines(CollectedNames(e), e)
  {
    DeterminesExact(CollectedNames(e), e);
    CollectsNames(e);
  }

  lemma NamesHead(index: seq<Sel>)
    requires index != []
    ensures SelNames(index[0]) <= IndexNames(index)
  {
  }

  lemma CollectBare(e: PExpr)
    requires e.PEIdent? && e.index == []
    ensures Collect(e) == [e.name]
  {
  }

  lemma CollectIndexOne(index: seq<Sel>)
    requires |index| == 1
    ensures CollectIndex(index) == CollectSel(index[0])
  {
    assert index[1..] == [];
  }

  /** A width or a repeat count that names a net is overlooked. */
  lemma OpenWidthUndetermined(x: string, w: string, y: string)
    requires x != w && y != w
    ensures var e := PEIdent(x, [SelUp(PEIdent(y, []), PEIdent(w, []))]);
            Collect(e) == [x, y] && !Determines(CollectedNames(e), e)
    ensures var e := PEConcat([PEIdent(x, [])], Some(PEIdent(w, [])));
            Collect(e) == [x] && !Determines(CollectedNames(e), e)
  {
    var sel := SelUp(PEIdent(y, []), PEIdent(w, []));
    CollectIndexOne([sel]);
    CollectBare(PEIdent(y, []));
    assert Collect(PEIdent(x, [sel])) == [x] + CollectIndex([sel]);
    NamesHead([sel]);
    assert w in Names(PEIdent(w, [])) && w in SelNames(sel);
    DeterminesExact(CollectedNames(PEIdent(x, [sel])), PEIdent(x, [sel]));
    var cat := PEConcat([PEIdent(x, [])], Some(PEIdent(w, [])));
    CollectOne(PEIdent(x, []));
    CollectBare(PEIdent(x, []));
    assert w in Names(PEIdent(w, []));
    assert w in Names(cat);
    DeterminesExact(CollectedNames(cat), cat);
  }
}
