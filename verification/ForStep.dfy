/** The step of a `for` loop is the one assignment that elaboration does not pad. */
module ForStep {
  import opened Verinum
  import opened PExprs
  import opened World
  import opened PForm
  import opened Netlist
  import opened Elaborate
  import opened Preservation
  import opened LoweringTheorems

  /** Elaborating a `for` that ends its rounds with x = e is right, whatever the rest. */
  ghost predicate StepPreservedForAll(G: Elab, I: Interp<Bits>, x: string, e: PExpr) {
    forall W: World, st: Statement, d, p, ns: NetStore, t: nat
      | && st.PFor? && st.name2 == x && st.expr2 == e && SizesFit(G, st.stat)
        && W.I == I && Fair(G, W, ns.sigs, t) && Elaborates(G, st, d, p) ::
      Sim(G, NetRun(W, p, ns, t), Run(G, W, st, ns.sigs, t))
  }

  /** The step is preserved if and only if it is elaborated at least as wide as its
      variable. Some other signal has to be there for a loop to run and end by. */
  lemma StepExact(G: Elab, I: Interp<Bits>, x: string, e: PExpr, y: string)
    requires Sound(G, I) && x in G.declared && G.known(G.sized(e, SigWidth(G, x)))
    requires y in G.declared && y != x && G.declared[y] > 0 && G.known(PEIdent(y, []))
    ensures StepPreservedForAll(G, I, x, e) <==> StepFits(G, x, e)
  {
    if StepFits(G, x, e) {
      forall W: World, st: Statement, d, p, ns: NetStore, t: nat
        | && st.PFor? && st.name2 == x && st.expr2 == e && SizesFit(G, st.stat)
          && W.I == I && Fair(G, W, ns.sigs, t) && Elaborates(G, st, d, p)
        ensures Sim(G, NetRun(W, p, ns, t), Run(G, W, st, ns.sigs, t))
      {
        LoweringPreserves(G, W, st, d, p, ns, t);
      }
    } else {
      StepFails(G, I, x, e, y);
    }
  }

  /** Another process clears y, each delay is one tick, the second instant is the last. */
  function ClearWorld(G: Elab, I: Interp<Bits>, y: string): World {
    World(I, (k, a, b) => a == b, b => 1, (t, s) => s[y := Fill(SigWidth(G, y), V0)], t => t, (t, n) => false, 1, 0)
  }

  /** for (x = e; y; x = e) #e; */
  function OneRound(G: Elab, x: string, e: PExpr, y: string): Statement {
    PFor(x, e, PEIdent(y, []), x, e, PDelay(G.sized(e, SigWidth(G, x)), None))
  }

  lemma SourceRound(G: Elab, W: World, x: string, e: PExpr, y: string, s: Store) returns (s': Store)
    requires W == ClearWorld(G, W.I, y) && y != x && SigWidth(G, y) > 0
    requires y in s && s[y] == Fill(SigWidth(G, y), V1)
    ensures Run(G, W, OneRound(G, x, e, y), s, 0) == Done(s', 1)
    ensures x in s' && |s'[x]| == SigWidth(G, x)
  {
    var st, c := OneRound(G, x, e, y), PEIdent(y, []);
    var s1 := s[x := Stored(G, W.I, x, e, s)];
    assert Eval(W.I, c, s1) == s1[y] && s1[y][0] == V1;
    var s2 := s1[y := Fill(SigWidth(G, y), V0)];
    assert AwaitTime(W, 1, s1, 0) == Done(s2, 1);
    assert Run(G, W, st.stat, s1, 0) == Done(s2, 1);
    s' := s2[x := Stored(G, W.I, x, e, s2)];
    assert Eval(W.I, c, s') == s2[y];
    assert RunFor(G, W, st, 0, s', 1) == Done(s', 1);
  }

  /** A signal that changes does not fold. */
  lemma Unfolded(G: Elab, I: Interp<Bits>, y: string, s: Store, s': Store)
    requires Sound(G, I) && Typed(G, s) && Typed(G, s') && y in G.declared && s[y] != s'[y]
    requires G.known(PEIdent(y, []))
    ensures G.fold(PEIdent(y, [])).None?
  {
    assert SoundAt(G, I, PEIdent(y, []), s) && SoundAt(G, I, PEIdent(y, []), s');
  }

  /** The code of the loop: an assignment, and a `while` that ends with another one. */
  lemma RoundCode(G: Elab, x: string, e: PExpr, y: string, d: Des) returns (p: NetProc, ne: NetExpr)
    requires x in G.declared && y in G.declared && G.known(G.sized(e, SigWidth(G, x)))
    requires G.known(PEIdent(y, [])) && G.fold(PEIdent(y, [])).None?
    ensures Elaborates(G, OneRound(G, x, e, y), d, p)
    ensures var w := SigWidth(G, x);
            var sized := G.sized(e, w);
            && ElabExpr(G, sized, d) == (Some(ne), d)
            && p == NetBlock(false,
                 [NetAssign(Sig(x, w), Pad(G, sized, ne, w)),
                  NetWhile(NetDyn(PEIdent(y, [])),
                    Some(NetBlock(false, [NetPDelay(ne, None), NetAssign(Sig(x, w), ne)])))])
  {
    ne := ElabExpr(G, G.sized(e, SigWidth(G, x)), d).0.value;
    assert Lower(G, PDelay(G.sized(e, SigWidth(G, x)), None), d) == (Some(NetPDelay(ne, None)), d);
    p := Lower(G, OneRound(G, x, e, y), d).0.value;
    var step := NetAssign(Sig(x, SigWidth(G, x)), ne);
    assert [NetPDelay(ne, None)] + [step] == [NetPDelay(ne, None), step];
  }

  lemma NetRound(G: Elab, W: World, x: string, e: PExpr, y: string, ne: NetExpr, loop: NetProc, ns: NetStore)
    returns (ns': NetStore)
    requires W == ClearWorld(G, W.I, y) && y != x && SigWidth(G, y) > 0
    requires Sound(G, W.I) && Typed(G, ns.sigs) && x in G.declared && y in G.declared
    requires ns.sigs[y] == Fill(SigWidth(G, y), V1) && !StepFits(G, x, e)
    requires var sized := G.sized(e, SigWidth(G, x)); ElabExpr(G, sized, Des(0, 0)) == (Some(ne), Des(0, 0))
    requires loop.NetWhile? && loop.cond == NetDyn(PEIdent(y, []))
    requires loop.body == Some(NetBlock(false, [NetPDelay(ne, None), NetAssign(Sig(x, SigWidth(G, x)), ne)]))
    ensures NetRunWhile(W, loop, 0, ns, 0) == NetDone(ns', 1)
    ensures x in ns'.sigs && |ns'.sigs[x]| < SigWidth(G, x)
  {
    var list := loop.body.value.list;
    assert NetEval(W.I, loop.cond, ns) == ns.sigs[y] && ns.sigs[y][0] == V1;
    var s1 := ns.sigs[y := Fill(SigWidth(G, y), V0)];
    var ns1 := ns.(sigs := s1);
    TypedStore(G, ns.sigs, y, Fill(SigWidth(G, y), V0));
    assert AwaitTime(W, 1, ns.sigs, 0) == Done(s1, 1);
    assert NetRun(W, list[0], ns, 0) == NetDone(ns1, 1);
    ElabExprValue(G, W, G.sized(e, SigWidth(G, x)), Des(0, 0), ns1);
    var v := NetEval(W.I, ne, ns1);
    ns' := ns.(sigs := s1[x := v]);
    assert NetRun(W, list[1], ns1, 1) == NetDone(ns', 1);
    PairRun(W, list, ns, 0);
    assert NetRun(W, loop.body.value, ns, 0) == NetDone(ns', 1);
    assert NetEval(W.I, loop.cond, ns') == s1[y];
    assert NetRunWhile(W, loop, 0, ns', 1) == NetDone(ns', 1);
  }

  /** One round, after which x is narrower in the netlist than it was declared. */
  lemma StepFails(G: Elab, I: Interp<Bits>, x: string, e: PExpr, y: string)
    requires Sound(G, I) && x in G.declared && G.known(G.sized(e, SigWidth(G, x)))
    requires y in G.declared && y != x && G.declared[y] > 0 && G.known(PEIdent(y, []))
    requires !StepFits(G, x, e)
    ensures !StepPreservedForAll(G, I, x, e)
  {
    var W, st := ClearWorld(G, I, y), OneRound(G, x, e, y);
    var s := ZeroStore(G)[y := Fill(SigWidth(G, y), V1)];
    var ns := NetStore(s, map[]);
    TypedStore(G, ZeroStore(G), y, Fill(SigWidth(G, y), V1));
    assert KeepsTyped(G, W) by {
      forall t: nat, r: Store | Typed(G, r) ensures Typed(G, W.step(t, r)) {
        TypedStore(G, r, y, Fill(SigWidth(G, y), V0));
      }
    }
    var s' := SourceRound(G, W, x, e, y, s);
    var p, ns' := CodeRound(G, W, x, e, y, ns);
    assert !Sim(G, NetRun(W, p, ns, 0), Run(G, W, st, ns.sigs, 0));
    assert Fair(G, W, ns.sigs, 0) && SizesFit(G, st.stat);
  }

  lemma CodeRound(G: Elab, W: World, x: string, e: PExpr, y: string, ns: NetStore)
    returns (p: NetProc, ns': NetStore)
    requires W == ClearWorld(G, W.I, y) && y != x && SigWidth(G, y) > 0
    requires Fair(G, W, ns.sigs, 0) && x in G.declared && y in G.declared && G.known(PEIdent(y, []))
    requires ns.sigs[y] == Fill(SigWidth(G, y), V1) && !StepFits(G, x, e)
    requires G.known(G.sized(e, SigWidth(G, x)))
    ensures Elaborates(G, OneRound(G, x, e, y), Des(0, 0), p) && NetRun(W, p, ns, 0) == NetDone(ns', 1)
    ensures x in ns'.sigs && |ns'.sigs[x]| < SigWidth(G, x)
  {
    var d, w := Des(0, 0), SigWidth(G, x);
    assert ns.sigs[y][0] == V1 && ZeroStore(G)[y][0] == V0;
    Unfolded(G, W.I, y, ns.sigs, ZeroStore(G));
    var ne;
    p, ne := RoundCode(G, x, e, y, d);
    var v := Stored(G, W.I, x, e, ns.sigs);
    var ns1 := ns.(sigs := ns.sigs[x := v]);
    TypedStore(G, ns.sigs, x, v);
    PadStores(G, W, G.sized(e, w), w, d, ns);
    assert NetRun(W, p.list[0], ns, 0) == NetDone(ns1, 0);
    ns' := NetRound(G, W, x, e, y, ne, p.list[1], ns1);
    PairRun(W, p.list, ns, 0);
  }
}
