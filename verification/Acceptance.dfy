/** Which statements elaborate: exactly the accepted ones do so without an error, and these
    run as they are parsed. */
module Acceptance {
  import opened Verinum
  import opened PExprs
  import opened World
  import opened PForm
  import opened Netlist
  import opened Elaborate
  import opened Preservation

  predicate AllKnown(G: Elab, es: seq<PExpr>) {
    forall i | 0 <= i < |es| :: G.known(es[i])
  }

  predicate EventsKnown(G: Elab, evs: seq<Event>) {
    forall i | 0 <= i < |evs| :: EventKnown(G, evs[i])
  }

  predicate AssignAccepted(G: Elab, x: string, e: PExpr) {
    x in G.declared && G.known(G.sized(e, SigWidth(G, x)))
  }

  predicate ControlAccepted(G: Elab, control: Control) {
    match control
    case Plain => true
    case Delayed(d) => G.known(d)
    case AtEvent(evs) => EventsKnown(G, evs)
    case AtEvents(n, evs) => G.known(n) && EventsKnown(G, evs)
  }

  /** L-values are declared, expressions and events elaborate, and a condition that is
      waited for reads something unless it is constant. The branch that a constant
      condition does not take can be anything. */
  predicate Accepted(G: Elab, st: Statement)
    decreases st, 0
  {
    match st
    case PAssign(x, e, control) => AssignAccepted(G, x, e) && ControlAccepted(G, control)
    case PBlock(_, list) => AllAccepted(G, list)
    case PCase(_, e, items) => G.known(e) && ItemsAccepted(G, items)
    case PCondit(e, if_, else_) =>
      && G.known(e)
      && (if G.fold(e).Some? then OptAccepted(G, if Truth(G.fold(e).value) then if_ else else_)
          else OptAccepted(G, if_) && OptAccepted(G, else_))
    case PFor(x1, e1, c, x2, e2, body) =>
      AssignAccepted(G, x1, e1) && G.known(c) && AssignAccepted(G, x2, e2) && Accepted(G, body)
    case PWhile(c, body) => G.known(c) && Accepted(G, body)
    case PRepeat(e, body) => G.known(e) && Accepted(G, body)
    case PForever(body) => Accepted(G, body)
    case PDelay(d, stat) => G.known(d) && OptAccepted(G, stat)
    case PEvent(evs, stat) => EventsKnown(G, evs) && OptAccepted(G, stat)
    case PWait(e, stat) => G.known(e) && (G.fold(e).None? ==> G.inputs(e) != {}) && OptAccepted(G, stat)
  }

  predicate OptAccepted(G: Elab, st: Option<Statement>)
    decreases st, 1
  {
    st.Some? ==> Accepted(G, st.value)
  }

  predicate AllAccepted(G: Elab, list: seq<Statement>)
    decreases list, 0
  {
    forall i | 0 <= i < |list| :: Accepted(G, list[i])
  }

  predicate ItemsAccepted(G: Elab, items: seq<CaseItem>)
    decreases items, 0
  {
    forall i | 0 <= i < |items| :: AllKnown(G, items[i].guards) && OptAccepted(G, items[i].stat)
  }

  /** A statement elaborates without an error if and only if it is accepted. */
  lemma {:induction false} AcceptedExact(G: Elab, st: Statement, d: Des)
    ensures Lower(G, st, d).1.errors == d.errors <==> Accepted(G, st)
    decreases st, 1
  {
    match st
    case PAssign(_, _, _) => AssignExact(G, st, d);
    case PBlock(_, list) => ListExact(G, list, d);
    case PCase(_, e, items) => ItemsExact(G, items, ElabExpr(G, e, d).1);
    case PCondit(_, _, _) => ConditExact(G, st, d);
    case PFor(_, _, _, _, _, body) => AcceptedExact(G, body, d);
    case PWhile(c, body) => AcceptedExact(G, body, ElabExpr(G, c, d).1);
    case PRepeat(e, body) => AcceptedExact(G, body, ElabExpr(G, e, d).1);
    case PForever(body) => AcceptedExact(G, body, d);
    case PDelay(e, stat) => OptExact(G, stat, ElabExpr(G, e, d).1);
    case PEvent(evs, stat) => OptExact(G, stat, d); EventsExact(G, evs, LowerOpt(G, stat, d).1);
    case PWait(_, stat) => OptExact(G, stat, d);
  }

  lemma AssignExact(G: Elab, st: Statement, d: Des)
    requires st.PAssign?
    ensures Lower(G, st, d).1.errors == d.errors <==> Accepted(G, st)
  {
    match st.control
    case Plain =>
    case Delayed(_) =>
    case AtEvent(evs) => EventsExact(G, evs, d.(locals := d.locals + 1));
    case AtEvents(_, evs) => EventsExact(G, evs, d.(locals := d.locals + 1));
  }

  lemma {:induction false} ConditExact(G: Elab, st: Statement, d: Des)
    requires st.PCondit?
    ensures Lower(G, st, d).1.errors == d.errors <==> Accepted(G, st)
    decreases st, 0
  {
    if G.known(st.expr) {
      var folded := G.fold(st.expr);
      if folded.Some? {
        OptExact(G, if Truth(folded.value) then st.if_ else st.else_, d);
      } else {
        OptExact(G, st.if_, d);
        OptExact(G, st.else_, LowerOpt(G, st.if_, d).1);
      }
    }
  }

  lemma {:induction false} OptExact(G: Elab, st: Option<Statement>, d: Des)
    ensures LowerOpt(G, st, d).1.errors == d.errors <==> OptAccepted(G, st)
    decreases st, 2
  {
    if st.Some? {
      AcceptedExact(G, st.value, d);
    }
  }

  lemma {:induction false} ListExact(G: Elab, list: seq<Statement>, d: Des)
    ensures LowerList(G, list, d).1.errors == d.errors <==> AllAccepted(G, list)
    decreases list, 1
  {
    if list != [] {
      AcceptedExact(G, list[0], d);
      ListExact(G, list[1..], Lower(G, list[0], d).1);
      assert AllAccepted(G, list) <==> Accepted(G, list[0]) && AllAccepted(G, list[1..]) by {
        assert forall i | 0 < i < |list| :: list[i] == list[1..][i - 1];
      }
    }
  }

  lemma {:induction false} ItemsExact(G: Elab, items: seq<CaseItem>, d: Des)
    ensures LowerItems(G, items, d).1.errors == d.errors <==> ItemsAccepted(G, items)
    decreases items, 1
  {
    if items != [] {
      var item := items[0];
      ItemExact(G, item, item.guards, d);
      ItemsExact(G, items[1..], LowerItem(G, item, item.guards, d).1);
      assert ItemsAccepted(G, items) <==>
             AllKnown(G, item.guards) && OptAccepted(G, item.stat) && ItemsAccepted(G, items[1..]) by {
        assert forall i | 0 < i < |items| :: items[i] == items[1..][i - 1];
      }
    }
  }

  lemma {:induction false} ItemExact(G: Elab, item: CaseItem, guards: seq<PExpr>, d: Des)
    ensures LowerItem(G, item, guards, d).1.errors == d.errors <==>
            if item.guards == [] then OptAccepted(G, item.stat)
            else AllKnown(G, guards) && (guards != [] ==> OptAccepted(G, item.stat))
    decreases item, 3, |guards|
  {
    if item.guards == [] {
      OptExact(G, item.stat, d);
    } else if guards != [] {
      var d1 := ElabExpr(G, guards[0], d).1;
      OptExact(G, item.stat, d1);
      ItemExact(G, item, guards[1..], LowerOpt(G, item.stat, d1).1);
      assert AllKnown(G, guards) <==> G.known(guards[0]) && AllKnown(G, guards[1..]) by {
        assert forall i | 0 < i < |guards| :: guards[i] == guards[1..][i - 1];
      }
    }
  }

  lemma {:induction false} EventsExact(G: Elab, evs: seq<Event>, d: Des)
    ensures LowerEvents(G, evs, d).1.errors == d.errors <==> EventsKnown(G, evs)
  {
    if evs != [] {
      EventsExact(G, evs[1..], if EventKnown(G, evs[0]) then d else Fail(d));
      assert EventsKnown(G, evs) <==> EventKnown(G, evs[0]) && EventsKnown(G, evs[1..]) by {
        assert forall i | 0 < i < |evs| :: evs[i] == evs[1..][i - 1];
      }
    }
  }

  /** Of a block no empty block is left, nor of a branch; and a branch on a constant is not
      left at all. */
  lemma NothingEmpty(G: Elab, st: Statement, d: Des)
    requires Lower(G, st, d).0.Some?
    ensures var p := Lower(G, st, d).0.value;
            && (st.PBlock? && (st.name.Some? || |st.list| != 1) ==>
                  p.NetBlock? && forall q <- p.list :: !EmptyBlock(q))
            && (st.PCondit? && G.fold(st.expr).None? ==>
                  && p.NetCondit?
                  && (p.if_.Some? ==> !EmptyBlock(p.if_.value)) && (p.else_.Some? ==> !EmptyBlock(p.else_.value)))
            && (st.PCondit? && G.fold(st.expr).Some? ==>
                  var side := if Truth(G.fold(st.expr).value) then st.if_ else st.else_;
                  p == if side.Some? then Lower(G, side.value, d).0.value else NOOP)
  {
    if st.PBlock? {
      ListNotEmpty(G, st.list, d);
    }
  }

  lemma {:induction false} ListNotEmpty(G: Elab, list: seq<Statement>, d: Des)
    ensures forall q <- LowerList(G, list, d).0 :: !EmptyBlock(q)
  {
    if list != [] {
      ListNotEmpty(G, list[1..], Lower(G, list[0], d).1);
    }
  }

  /** Events that do not elaborate are counted, each once, and the others kept. */
  lemma {:induction false} EventsSkipped(G: Elab, evs: seq<Event>, d: Des)
    ensures var (kept, d') := LowerEvents(G, evs, d);
            && d'.errors - d.errors == |evs| - |kept|
            && (forall ev <- kept :: EventKnown(G, ev))
            && multiset(kept) <= multiset(evs)
            && (forall ev <- evs | EventKnown(G, ev) :: multiset(kept)[ev] == multiset(evs)[ev])
  {
    if evs != [] {
      var rest := evs[1..];
      assert evs == [evs[0]] + rest;
      assert multiset(evs) == multiset{evs[0]} + multiset(rest);
      EventsSkipped(G, rest, if EventKnown(G, evs[0]) then d else Fail(d));
      var kept := LowerEvents(G, rest, if EventKnown(G, evs[0]) then d else Fail(d)).0;
      assert multiset([evs[0]] + kept) == multiset{evs[0]} + multiset(kept);
      assert [] + kept == kept;
    }
  }

  /** Some parts that fail leave code all the same: an assignment with a failed delay is
      made without one, and of a loop whose step assigns to an unknown name its body is
      kept. A block goes on behind a statement that fails. */
  lemma CodeInError(G: Elab, st: Statement, d: Des)
    ensures st.PAssign? && st.control.Delayed? && AssignAccepted(G, st.lval, st.rval) && !G.known(st.control.delay) ==>
              Lower(G, st, d) == Lower(G, PAssign(st.lval, st.rval, Plain), Fail(d))
    ensures st.PFor? && AssignAccepted(G, st.name1, st.expr1) && st.name2 !in G.declared ==>
              var (body, d') := Lower(G, st.stat, d);
              Lower(G, st, d) == (Some(NetBlock(false, if body.None? then [] else [body.value])), Fail(d'))
  {
  }

  lemma {:induction false} BlockGoesOn(G: Elab, a: seq<Statement>, b: seq<Statement>, d: Des)
    ensures var (ps, d1) := LowerList(G, a, d); var (qs, d2) := LowerList(G, b, d1);
            LowerList(G, a + b, d) == (ps + qs, d2)
  {
    if a == [] {
      assert a + b == b;
      var qs := LowerList(G, b, d).0;
      assert [] + qs == qs;
    } else {
      var (p, d1) := Lower(G, a[0], d);
      assert (a + b)[0] == a[0] && (a + b)[1..] == a[1..] + b;
      BlockGoesOn(G, a[1..], b, d1);
      var (ps, d2) := LowerList(G, a[1..], d1);
      var qs := LowerList(G, b, d2).0;
      var first := if p.None? || EmptyBlock(p.value) then [] else [p.value];
      assert first + (ps + qs) == (first + ps) + qs;
    }
  }

  /** The main theorem without assumptions on elaboration: every accepted statement whose
      sizes fit gets code, without an error, and the code runs exactly like it. */
  lemma AcceptedRuns(G: Elab, W: World, st: Statement, d: Des, ns: NetStore, t: nat)
    requires Fair(G, W, ns.sigs, t) && Accepted(G, st) && SizesFit(G, st)
    ensures var (p, d') := Lower(G, st, d);
            p.Some? && d'.errors == d.errors && Sim(G, NetRun(W, p.value, ns, t), Run(G, W, st, ns.sigs, t))
  {
    AcceptedExact(G, st, d);
    LoweringPreserves(G, W, st, d, Lower(G, st, d).0.value, ns, t);
  }
}
