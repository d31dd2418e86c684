/** Elaboration preserves behaviour: the netlist statement and the parsed statement
    run to the same signals at the same instant, in every world. */
module Preservation {
  import opened Verinum
  import opened PExprs
  import opened World
  import opened PForm
  import opened Netlist
  import opened Elaborate

  /** Same signals, of the declared widths, at the same instant; or both cut off. */
  ghost predicate Sim(G: Elab, nr: NetOutcome, r: Outcome) {
    match nr
    case NetCut => r.Cut?
    case NetDone(ns, t) => r == Done(ns.sigs, t) && Typed(G, ns.sigs)
  }

  predicate Fits(G: Elab, e: PExpr) {
    G.fold(e).Some? ==> CountFits(G.fold(e).value, G.signed(e))
  }

  /** The step of a `for` is elaborated at least as wide as the variable it updates. */
  predicate StepFits(G: Elab, x: string, e: PExpr) {
    G.width(G.sized(e, SigWidth(G, x))) >= SigWidth(G, x)
  }

  /** Every constant repetition count and every `for` step in the statement fits. */
  predicate SizesFit(G: Elab, st: Statement)
    decreases st
  {
    match st
    case PAssign(_, _, control) => control.AtEvents? ==> Fits(G, control.count)
    case PBlock(_, list) => forall i | 0 <= i < |list| :: SizesFit(G, list[i])
    case PCase(_, _, items) =>
      forall i | 0 <= i < |items| :: items[i].stat.Some? ==> SizesFit(G, items[i].stat.value)
    case PCondit(_, if_, else_) =>
      (if_.Some? ==> SizesFit(G, if_.value)) && (else_.Some? ==> SizesFit(G, else_.value))
    case PFor(_, _, _, x, e, body) => StepFits(G, x, e) && SizesFit(G, body)
    case PWhile(_, body) => SizesFit(G, body)
    case PRepeat(e, body) => Fits(G, e) && SizesFit(G, body)
    case PForever(body) => SizesFit(G, body)
    case PDelay(_, stat) => stat.Some? ==> SizesFit(G, stat.value)
    case PEvent(_, stat) => stat.Some? ==> SizesFit(G, stat.value)
    case PWait(_, stat) => stat.Some? ==> SizesFit(G, stat.value)
  }

  /** The statement elaborates to the netlist statement without error. */
  predicate Elaborates(G: Elab, st: Statement, d: Des, p: NetProc) {
    Lower(G, st, d).0 == Some(p) && Lower(G, st, d).1.errors == d.errors
  }

  ghost predicate ElaboratesTo(G: Elab, st: Option<Statement>, p: Option<NetProc>) {
    match (st, p)
    case (None, None) => true
    case (Some(x), Some(y)) => exists d :: Elaborates(G, x, d, y)
    case _ => false
  }

  lemma ElabExprValue(G: Elab, W: World, e: PExpr, d: Des, ns: NetStore)
    requires Sound(G, W.I) && Typed(G, ns.sigs)
    requires ElabExpr(G, e, d).0.Some?
    ensures |Eval(W.I, e, ns.sigs)| == G.width(e)
    ensures NetEval(W.I, ElabExpr(G, e, d).0.value, ns) == Eval(W.I, e, ns.sigs)
    ensures ElabExpr(G, e, d).1 == d
  {
    assert SoundAt(G, W.I, e, ns.sigs);
  }

  /** Padding and truncation together resize the value to the l-value. */
  lemma PadStores(G: Elab, W: World, e: PExpr, w: nat, d: Des, ns: NetStore)
    requires Sound(G, W.I) && Typed(G, ns.sigs)
    requires ElabExpr(G, e, d).0.Some?
    ensures var ne := Pad(G, e, ElabExpr(G, e, d).0.value, w);
            Trim(NetEval(W.I, ne, ns), w) == Resize(Eval(W.I, e, ns.sigs), w, G.signed(e))
    ensures w <= G.width(e) ==>
              Trim(NetEval(W.I, ElabExpr(G, e, d).0.value, ns), w) == Resize(Eval(W.I, e, ns.sigs), w, G.signed(e))
  {
    ElabExprValue(G, W, e, d, ns);
    var v := Eval(W.I, e, ns.sigs);
    assert |v| == w ==> v[..w] == v;
  }

  /** The first matching guard of an item decides. */
  lemma {:induction false} AnyGuardSplit(W: World, kind: CaseKind, v: Bits, guards: seq<PExpr>, s: Store)
    requires guards != []
    ensures AnyGuard(W, kind, v, guards, s) <==>
            W.caseEq(kind, v, Eval(W.I, guards[0], s)) || AnyGuard(W, kind, v, guards[1..], s)
  {
    if AnyGuard(W, kind, v, guards, s) && !W.caseEq(kind, v, Eval(W.I, guards[0], s)) {
      var i :| 0 <= i < |guards| && W.caseEq(kind, v, Eval(W.I, guards[i], s));
      assert guards[1..][i - 1] == guards[i];
    }
    if AnyGuard(W, kind, v, guards[1..], s) {
      var i :| 0 <= i < |guards[1..]| && W.caseEq(kind, v, Eval(W.I, guards[1..][i], s));
      assert guards[1..][i] == guards[i + 1];
    }
  }

  lemma {:induction false} NetSelectAppend(W: World, kind: CaseKind, v: Bits, a: seq<NetItem>, b: seq<NetItem>,
                        default: Option<NetProc>, ns: NetStore, guards: seq<PExpr>, item: CaseItem, G: Elab, d: Des)
    requires Sound(G, W.I) && Typed(G, ns.sigs)
    requires item.guards != [] && LowerItem(G, item, guards, d) == (a, LowerItem(G, item, guards, d).1)
    requires LowerItem(G, item, guards, d).1.errors == d.errors
    ensures !AnyGuard(W, kind, v, guards, ns.sigs) ==>
              NetSelect(W, kind, v, a + b, default, ns) == NetSelect(W, kind, v, b, default, ns)
    ensures AnyGuard(W, kind, v, guards, ns.sigs) ==>
              ElaboratesTo(G, item.stat, NetSelect(W, kind, v, a + b, default, ns))
    decreases |guards|
  {
    if guards == [] {
      assert a + b == b;
    } else {
      AnyGuardSplit(W, kind, v, guards, ns.sigs);
      var (gu, d1) := ElabExpr(G, guards[0], d);
      var (st, d2) := LowerOpt(G, item.stat, d1);
      var (rest, d3) := LowerItem(G, item, guards[1..], d2);
      ElabExprValue(G, W, guards[0], d, ns);
      assert a == [NetItem(gu, st)] + rest;
      assert (a + b)[1..] == rest + b;
      NetSelectAppend(W, kind, v, rest, b, default, ns, guards[1..], item, G, d2);
      if item.stat.Some? {
        assert Elaborates(G, item.stat.value, d1, st.value);
      }
    }
  }

  /** Flattening the guards selects the same statement, with the default anywhere. */
  lemma {:induction false} SelectPreserved(G: Elab, W: World, kind: CaseKind, v: Bits, items: seq<CaseItem>, d: Des,
                        default: Option<Statement>, netDefault: Option<NetProc>, ns: NetStore)
    requires Sound(G, W.I) && Typed(G, ns.sigs)
    requires LowerItems(G, items, d).1.errors == d.errors
    requires ElaboratesTo(G, default, netDefault)
    ensures ElaboratesTo(G, Select(W, kind, v, items, default, ns.sigs),
                         NetSelect(W, kind, v, LowerItems(G, items, d).0, netDefault, ns))
    decreases |items|
  {
    if items != [] {
      var item := items[0];
      var (first, d1) := LowerItem(G, item, item.guards, d);
      var (rest, d2) := LowerItems(G, items[1..], d1);
      if item.guards == [] {
        var (st, _) := LowerOpt(G, item.stat, d);
        if item.stat.Some? {
          assert Elaborates(G, item.stat.value, d, st.value);
        }
        assert (first + rest)[0] == NetItem(None, st) && (first + rest)[1..] == rest;
        SelectPreserved(G, W, kind, v, items[1..], d1, item.stat, st, ns);
      } else {
        NetSelectAppend(W, kind, v, first, rest, netDefault, ns, item.guards, item, G, d);
        SelectPreserved(G, W, kind, v, items[1..], d1, default, netDefault, ns);
      }
    }
  }

  /** The loop that `wait` becomes leaves at the instant the condition holds. */
  lemma {:induction false} WaitLoop(G: Elab, W: World, e: PExpr, p: NetProc, spins: nat, ns: NetStore, t: nat)
    requires Fair(G, W, ns.sigs, t) && G.known(e)
    requires p.NetWhile? && p.body == Some(NetEvWait([Probes(G.inputs(e))], None))
    requires p.cond == NetNotOne(if G.width(e) > 1 then NetOrReduce(NetDyn(e)) else NetDyn(e))
    ensures NetRunWhile(W, p, spins, ns, t) == Resume(ns, AwaitTrue(W, e, ns.sigs, t))
    decreases W.last - t, 1
  {
    var b := Eval(W.I, e, ns.sigs);
    assert SoundAt(G, W.I, e, ns.sigs);
    assert |b| <= 1 ==> (b == [V1] <==> Truth(b));
    assert NeZero(b) == [V1] <==> Truth(b);
    assert !Truth([V0]) && Truth([V1]);
    assert NetEval(W.I, NetDyn(e), ns) == b;
    assert NetEval(W.I, p.cond.arg, ns) == [V1] <==> Truth(b);
    if !Truth(b) {
      assert NetRunOpt(W, p.body, ns, t) == NetRun(W, p.body.value, ns, t);
      assert NetRun(W, p.body.value, ns, t) == Resume(ns, AwaitEvent(W, p.body.value.events, ns.sigs, t));
      WaitBlocked(G, W, e, p, spins, ns, t);
    }
  }

  /** Between two instants with unchanged inputs the condition cannot change. */
  lemma {:induction false} WaitBlocked(G: Elab, W: World, e: PExpr, p: NetProc, spins: nat, ns: NetStore, t: nat)
    requires Fair(G, W, ns.sigs, t) && G.known(e)
    requires p.NetWhile? && p.body == Some(NetEvWait([Probes(G.inputs(e))], None))
    requires p.cond == NetNotOne(if G.width(e) > 1 then NetOrReduce(NetDyn(e)) else NetDyn(e))
    requires !Truth(Eval(W.I, e, ns.sigs))
    ensures AwaitEvent(W, [Probes(G.inputs(e))], ns.sigs, t).Cut? ==> AwaitTrue(W, e, ns.sigs, t).Cut?
    ensures var o := AwaitEvent(W, [Probes(G.inputs(e))], ns.sigs, t);
            o.Done? ==>
              NetRunWhile(W, p, W.spins, ns.(sigs := o.store), o.at) == Resume(ns, AwaitTrue(W, e, ns.sigs, t))
    decreases W.last - t, 0
  {
    if t < W.last {
      var s' := W.step(t, ns.sigs);
      var evs := [Probes(G.inputs(e))];
      var ns' := ns.(sigs := s');
      assert SomeOccurs(W, evs, t, ns.sigs, s') <==> Occurs(W, evs[0], t, ns.sigs, s');
      if SomeOccurs(W, evs, t, ns.sigs, s') {
        WaitLoop(G, W, e, p, W.spins, ns', t + 1);
      } else {
        WaitBlocked(G, W, e, p, spins, ns', t + 1);
      }
    }
  }

  predicate OptFits(G: Elab, st: Option<Statement>) {
    st.Some? ==> SizesFit(G, st.value)
  }

  /** Main theorem: an error-free elaboration whose sizes fit runs exactly
      like the parsed statement, whatever the other processes do. */
  lemma {:induction false} LoweringPreserves(G: Elab, W: World, st: Statement, d: Des, p: NetProc, ns: NetStore, t: nat)
    requires Fair(G, W, ns.sigs, t) && SizesFit(G, st)
    requires Elaborates(G, st, d, p)
    ensures Sim(G, NetRun(W, p, ns, t), Run(G, W, st, ns.sigs, t))
    decreases W.last - t, st, 2, 0
  {
    match st
    case PAssign(_, _, _) => AssignPreserved(G, W, st, d, p, ns, t);
    case PBlock(_, _) => BlockPreserved(G, W, st, d, p, ns, t);
    case PCase(_, _, _) => CasePreserved(G, W, st, d, p, ns, t);
    case PCondit(_, _, _) => ConditPreserved(G, W, st, d, p, ns, t);
    case PFor(_, _, _, _, _, _) => ForStatementPreserved(G, W, st, d, p, ns, t);
    case PWhile(_, _) => WhilePreserved(G, W, st, d, ElabExpr(G, st.cond, d).1, p, W.spins, ns, t);
    case PRepeat(_, _) => RepeatStatementPreserved(G, W, st, d, p, ns, t);
    case PForever(_) => ForeverPreserved(G, W, st, d, p, W.spins, ns, t);
    case PDelay(_, _) => DelayPreserved(G, W, st, d, p, ns, t);
    case PEvent(_, _) => EventPreserved(G, W, st, d, p, ns, t);
    case PWait(_, _) => WaitPreserved(G, W, st, d, p, ns, t);
  }

  lemma {:induction false} BlockPreserved(G: Elab, W: World, st: Statement, d: Des, p: NetProc, ns: NetStore, t: nat)
    requires st.PBlock?
    requires Fair(G, W, ns.sigs, t) && SizesFit(G, st)
    requires Elaborates(G, st, d, p)
    ensures Sim(G, NetRun(W, p, ns, t), Run(G, W, st, ns.sigs, t))
    decreases W.last - t, st, 1, 0
  {
    if |st.list| == 1 && st.name.None? {
      LoweringPreserves(G, W, st.list[0], d, p, ns, t);
      SingletonRun(G, W, st.list, ns.sigs, t);
    } else {
      ListPreserved(G, W, st.list, d, ns, t);
    }
  }

  lemma {:induction false} ForStatementPreserved(G: Elab, W: World, st: Statement, d: Des, p: NetProc,
                                                 ns: NetStore, t: nat)
    requires st.PFor?
    requires Fair(G, W, ns.sigs, t) && SizesFit(G, st)
    requires Elaborates(G, st, d, p)
    ensures Sim(G, NetRun(W, p, ns, t), Run(G, W, st, ns.sigs, t))
    decreases W.last - t, st, 1, W.spins + 1
  {
    var nbody, d2, loop := ForCode(G, st, d, p);
    var ns1 := StartRun(G, W, st, d, ns, t);
    ForPreserved(G, W, st, d, nbody, d2, d2, loop, W.spins, ns1, t);
    PairRun(W, p.list, ns, t);
  }

  predicate StartElaborates(G: Elab, st: Statement, d: Des)
    requires st.PFor?
  {
    ElabExpr(G, G.sized(st.expr1, SigWidth(G, st.name1)), d).0.Some?
  }

  /** The assignment that starts a `for`. */
  function StartAssign(G: Elab, st: Statement, d: Des): NetProc
    requires st.PFor? && StartElaborates(G, st, d)
  {
    var w := SigWidth(G, st.name1);
    var sized := G.sized(st.expr1, w);
    NetAssign(Sig(st.name1, w), Pad(G, sized, ElabExpr(G, sized, d).0.value, w))
  }

  lemma StartRun(G: Elab, W: World, st: Statement, d: Des, ns: NetStore, t: nat) returns (ns1: NetStore)
    requires st.PFor? && Fair(G, W, ns.sigs, t) && StartElaborates(G, st, d)
    ensures ns1 == ns.(sigs := ns.sigs[st.name1 := Stored(G, W.I, st.name1, st.expr1, ns.sigs)])
    ensures NetRun(W, StartAssign(G, st, d), ns, t) == NetDone(ns1, t)
    ensures Typed(G, ns1.sigs)
  {
    var w := SigWidth(G, st.name1);
    PadStores(G, W, G.sized(st.expr1, w), w, d, ns);
    var v := Stored(G, W.I, st.name1, st.expr1, ns.sigs);
    ns1 := ns.(sigs := ns.sigs[st.name1 := v]);
    TypedStore(G, ns.sigs, st.name1, v);
  }

  /** The code of a `for`: its start, and a loop around its body and step. */
  lemma ForCode(G: Elab, st: Statement, d: Des, p: NetProc) returns (nbody: NetProc, d2: Des, loop: NetProc)
    requires st.PFor? && Elaborates(G, st, d, p)
    ensures StartElaborates(G, st, d) && StepElaborates(G, st, d2) && ElabExpr(G, st.cond, d2).0.Some?
    ensures Elaborates(G, st.stat, d, nbody)
    ensures p == NetBlock(false, [StartAssign(G, st, d), loop])
    ensures loop == NetWhile(ElabExpr(G, st.cond, d2).0.value, Some(NetBlock(false, [nbody] + [StepAssign(G, st, d2)])))
  {
    var (body, d') := Lower(G, st.stat, d);
    nbody, d2, loop := body.value, d', p.list[1];
  }

  lemma {:induction false} RepeatStatementPreserved(G: Elab, W: World, st: Statement, d: Des, p: NetProc,
                                                    ns: NetStore, t: nat)
    requires st.PRepeat?
    requires Fair(G, W, ns.sigs, t) && SizesFit(G, st)
    requires Elaborates(G, st, d, p)
    ensures Sim(G, NetRun(W, p, ns, t), Run(G, W, st, ns.sigs, t))
    decreases W.last - t, st, 1, 0
  {
    var (count, d1) := ElabExpr(G, st.expr, d);
    var (nbody, d2) := Lower(G, st.stat, d1);
    ElabExprValue(G, W, st.expr, d, ns);
    var n := RepeatCount(Eval(W.I, st.expr, ns.sigs), G.signed(st.expr));
    RepeatPreserved(G, W, st.stat, d1, nbody.value, n, ns, t);
    RepeatedRun(G, W, st.expr, count.value, nbody.value, n, ns, t);
    NoopRun(W, ns, t);
  }

  lemma {:induction false} DelayPreserved(G: Elab, W: World, st: Statement, d: Des, p: NetProc, ns: NetStore, t: nat)
    requires st.PDelay?
    requires Fair(G, W, ns.sigs, t) && SizesFit(G, st)
    requires Elaborates(G, st, d, p)
    ensures Sim(G, NetRun(W, p, ns, t), Run(G, W, st, ns.sigs, t))
    decreases W.last - t, st, 1, 0
  {
    var (ne, d1) := ElabExpr(G, st.delay, d);
    ElabExprValue(G, W, st.delay, d, ns);
    var o := AwaitTime(W, W.clock(t) + W.ticks(Eval(W.I, st.delay, ns.sigs)), ns.sigs, t);
    AwaitTimeTyped(G, W, W.clock(t) + W.ticks(Eval(W.I, st.delay, ns.sigs)), ns.sigs, t);
    if o.Done? {
      OptPreserved(G, W, st.stat_, d1, p.stat_, ns.(sigs := o.store), o.at);
    }
  }

  lemma {:induction false} EventPreserved(G: Elab, W: World, st: Statement, d: Des, p: NetProc, ns: NetStore, t: nat)
    requires st.PEvent?
    requires Fair(G, W, ns.sigs, t) && SizesFit(G, st)
    requires Elaborates(G, st, d, p)
    ensures Sim(G, NetRun(W, p, ns, t), Run(G, W, st, ns.sigs, t))
    decreases W.last - t, st, 1, 0
  {
    var o := AwaitEvent(W, st.events, ns.sigs, t);
    AwaitEventTyped(G, W, st.events, ns.sigs, t);
    if o.Done? {
      if st.stat_.None? {
        NoopRun(W, ns.(sigs := o.store), o.at);
      } else {
        OptPreserved(G, W, st.stat_, d, p.stat_, ns.(sigs := o.store), o.at);
      }
    }
  }

  lemma EmptyBlockRun(W: World, p: NetProc, ns: NetStore, t: nat)
    requires t <= W.last && EmptyBlock(p)
    ensures NetRun(W, p, ns, t) == NetDone(ns, t)
  {
    assert NetRunList(W, p.list, ns, t) == NetDone(ns, t);
  }

  lemma NoopRun(W: World, ns: NetStore, t: nat)
    requires t <= W.last
    ensures NetRunOpt(W, Some(NOOP), ns, t) == NetDone(ns, t)
  {
    EmptyBlockRun(W, NOOP, ns, t);
  }

  lemma SingletonRun(G: Elab, W: World, list: seq<Statement>, s: Store, t: nat)
    requires |list| == 1 && t <= W.last
    ensures RunList(G, W, list, s, t) == Run(G, W, list[0], s, t)
  {
    var r := Run(G, W, list[0], s, t);
    if r.Done? {
      assert RunList(G, W, list[1..], r.store, r.at) == r;
    }
  }

  /** Running a list of two. */
  lemma PairRun(W: World, list: seq<NetProc>, ns: NetStore, t: nat)
    requires |list| == 2 && t <= W.last
    ensures var r := NetRun(W, list[0], ns, t);
            NetRunList(W, list, ns, t) == if r.NetCut? then r else NetRun(W, list[1], r.store, r.at)
  {
    var r := NetRun(W, list[0], ns, t);
    if r.NetDone? {
      assert list[1..][0] == list[1];
      var r2 := NetRun(W, list[1], r.store, r.at);
      if r2.NetDone? {
        assert NetRunList(W, list[1..][1..], r2.store, r2.at) == r2;
      }
    }
  }

  lemma {:induction false} OptPreserved(G: Elab, W: World, st: Option<Statement>, d: Des, p: Option<NetProc>,
                                        ns: NetStore, t: nat)
    requires Fair(G, W, ns.sigs, t) && OptFits(G, st)
    requires LowerOpt(G, st, d).0 == p && LowerOpt(G, st, d).1.errors == d.errors
    ensures Sim(G, NetRunOpt(W, p, ns, t), RunOpt(G, W, st, ns.sigs, t))
    decreases W.last - t, st, 3, 0
  {
    if st.Some? {
      LoweringPreserves(G, W, st.value, d, p.value, ns, t);
    }
  }

  lemma {:induction false} ListPreserved(G: Elab, W: World, list: seq<Statement>, d: Des, ns: NetStore, t: nat)
    requires Fair(G, W, ns.sigs, t)
    requires forall i | 0 <= i < |list| :: SizesFit(G, list[i])
    requires LowerList(G, list, d).1.errors == d.errors
    ensures Sim(G, NetRunList(W, LowerList(G, list, d).0, ns, t), RunList(G, W, list, ns.sigs, t))
    decreases W.last - t, list, 0, 0
  {
    if list != [] {
      var (p, d1) := Lower(G, list[0], d);
      var (rest, d2) := LowerList(G, list[1..], d1);
      LoweringPreserves(G, W, list[0], d, p.value, ns, t);
      var r := NetRun(W, p.value, ns, t);
      if EmptyBlock(p.value) {
        EmptyBlockRun(W, p.value, ns, t);
        assert [] + rest == rest;
      } else {
        assert ([p.value] + rest)[1..] == rest;
      }
      if r.NetDone? {
        ListPreserved(G, W, list[1..], d1, r.store, r.at);
      }
    }
  }

  lemma {:induction false} CasePreserved(G: Elab, W: World, st: Statement, d: Des, p: NetProc, ns: NetStore, t: nat)
    requires st.PCase?
    requires Fair(G, W, ns.sigs, t) && SizesFit(G, st)
    requires Elaborates(G, st, d, p)
    ensures Sim(G, NetRun(W, p, ns, t), Run(G, W, st, ns.sigs, t))
    decreases W.last - t, st, 1, 0
  {
    var (ne, d1) := ElabExpr(G, st.expr, d);
    ElabExprValue(G, W, st.expr, d, ns);
    var v := Eval(W.I, st.expr, ns.sigs);
    SelectPreserved(G, W, st.kind, v, st.items, d1, None, None, ns);
    var chosen := Select(W, st.kind, v, st.items, None, ns.sigs);
    var netChosen := NetSelect(W, st.kind, v, p.items, None, ns);
    if chosen.Some? {
      var i :| 0 <= i < |st.items| && st.items[i].stat == chosen;
      var dc :| Elaborates(G, chosen.value, dc, netChosen.value);
      LoweringPreserves(G, W, chosen.value, dc, netChosen.value, ns, t);
    }
  }

  lemma {:induction false} ConditPreserved(G: Elab, W: World, st: Statement, d: Des, p: NetProc, ns: NetStore, t: nat)
    requires st.PCondit?
    requires Fair(G, W, ns.sigs, t) && SizesFit(G, st)
    requires Elaborates(G, st, d, p)
    ensures Sim(G, NetRun(W, p, ns, t), Run(G, W, st, ns.sigs, t))
    decreases W.last - t, st, 1, 0
  {
    var (ne, d1) := ElabExpr(G, st.expr, d);
    ElabExprValue(G, W, st.expr, d, ns);
    var b := Eval(W.I, st.expr, ns.sigs);
    var branch := if Truth(b) then st.if_ else st.else_;
    if ne.value.NetConst? {
      if branch.None? {
        NoopRun(W, ns, t);
      } else {
        LoweringPreserves(G, W, branch.value, d1, p, ns, t);
      }
    } else {
      var (i, d2) := LowerOpt(G, st.if_, d1);
      var (el, d3) := LowerOpt(G, st.else_, d2);
      assert |b| == 1 ==> (b == [V1] <==> Truth(b));
      assert NetEval(W.I, p.expr, ns) == [V1] <==> Truth(b);
      if Truth(b) {
        OptPreserved(G, W, st.if_, d1, i, ns, t);
        DropEmptyRun(W, i, ns, t);
      } else {
        OptPreserved(G, W, st.else_, d2, el, ns, t);
        DropEmptyRun(W, el, ns, t);
      }
    }
  }

  lemma DropEmptyRun(W: World, p: Option<NetProc>, ns: NetStore, t: nat)
    requires t <= W.last
    ensures NetRunOpt(W, DropEmpty(p), ns, t) == NetRunOpt(W, p, ns, t)
  {
    if p.Some? && EmptyBlock(p.value) {
      EmptyBlockRun(W, p.value, ns, t);
    }
  }

  lemma {:induction false} WhilePreserved(G: Elab, W: World, st: Statement, d: Des, d1: Des, p: NetProc,
                                          spins: nat, ns: NetStore, t: nat)
    requires st.PWhile? && p.NetWhile? && p.body.Some?
    requires Fair(G, W, ns.sigs, t) && SizesFit(G, st)
    requires ElabExpr(G, st.cond, d).0 == Some(p.cond)
    requires Elaborates(G, st.stat, d1, p.body.value)
    ensures Sim(G, NetRunWhile(W, p, spins, ns, t), RunWhile(G, W, st, spins, ns.sigs, t))
    decreases W.last - t, st, 1, spins
  {
    ElabExprValue(G, W, st.cond, d, ns);
    if Truth(Eval(W.I, st.cond, ns.sigs)) {
      LoweringPreserves(G, W, st.stat, d1, p.body.value, ns, t);
      var r := NetRunOpt(W, p.body, ns, t);
      if r.NetDone? {
        if r.at > t {
          WhilePreserved(G, W, st, d, d1, p, W.spins, r.store, r.at);
        } else if spins > 0 {
          WhilePreserved(G, W, st, d, d1, p, spins - 1, r.store, r.at);
        }
      }
    }
  }

  predicate StepElaborates(G: Elab, st: Statement, d: Des)
    requires st.PFor?
  {
    ElabExpr(G, G.sized(st.expr2, SigWidth(G, st.name2)), d).0.Some?
  }

  /** The assignment that ends every round of a `for`. */
  function StepAssign(G: Elab, st: Statement, d: Des): NetProc
    requires st.PFor? && StepElaborates(G, st, d)
  {
    var w := SigWidth(G, st.name2);
    NetAssign(Sig(st.name2, w), ElabExpr(G, G.sized(st.expr2, w), d).0.value)
  }

  lemma StepRun(G: Elab, W: World, st: Statement, d: Des, ns: NetStore, t: nat) returns (ns': NetStore)
    requires st.PFor? && Fair(G, W, ns.sigs, t) && StepElaborates(G, st, d) && StepFits(G, st.name2, st.expr2)
    ensures ns' == ns.(sigs := ns.sigs[st.name2 := Stored(G, W.I, st.name2, st.expr2, ns.sigs)])
    ensures NetRun(W, StepAssign(G, st, d), ns, t) == NetDone(ns', t)
    ensures Typed(G, ns'.sigs)
  {
    var w := SigWidth(G, st.name2);
    PadStores(G, W, G.sized(st.expr2, w), w, d, ns);
    var v := Stored(G, W.I, st.name2, st.expr2, ns.sigs);
    ns' := ns.(sigs := ns.sigs[st.name2 := v]);
    TypedStore(G, ns.sigs, st.name2, v);
  }

  lemma {:induction false} ForPreserved(G: Elab, W: World, st: Statement, d1: Des, nbody: NetProc, d2: Des, d3: Des,
                                        p: NetProc, spins: nat, ns: NetStore, t: nat)
    requires st.PFor?
    requires Fair(G, W, ns.sigs, t) && SizesFit(G, st)
    requires Elaborates(G, st.stat, d1, nbody)
    requires StepElaborates(G, st, d2) && ElabExpr(G, st.cond, d3).0.Some?
    requires p == NetWhile(ElabExpr(G, st.cond, d3).0.value, Some(NetBlock(false, [nbody] + [StepAssign(G, st, d2)])))
    ensures Sim(G, NetRunWhile(W, p, spins, ns, t), RunFor(G, W, st, spins, ns.sigs, t))
    decreases W.last - t, st, 1, spins
  {
    ElabExprValue(G, W, st.cond, d3, ns);
    if Truth(Eval(W.I, st.cond, ns.sigs)) {
      LoweringPreserves(G, W, st.stat, d1, nbody, ns, t);
      var list := p.body.value.list;
      PairRun(W, list, ns, t);
      assert NetRunOpt(W, p.body, ns, t) == NetRunList(W, list, ns, t) by {
        assert NetRun(W, p.body.value, ns, t) == NetRunList(W, list, ns, t);
      }
      var r := NetRun(W, nbody, ns, t);
      if r.NetDone? {
        var ns' := StepRun(G, W, st, d2, r.store, r.at);
        if r.at > t {
          ForPreserved(G, W, st, d1, nbody, d2, d3, p, W.spins, ns', r.at);
        } else if spins > 0 {
          ForPreserved(G, W, st, d1, nbody, d2, d3, p, spins - 1, ns', r.at);
        }
      }
    }
  }

  lemma {:induction false} ForeverPreserved(G: Elab, W: World, st: Statement, d: Des, p: NetProc,
                                            spins: nat, ns: NetStore, t: nat)
    requires st.PForever? && p.NetForever?
    requires Fair(G, W, ns.sigs, t) && SizesFit(G, st)
    requires Elaborates(G, st.stat, d, p.stat)
    ensures Sim(G, NetRunForever(W, p, spins, ns, t), RunForever(G, W, st, spins, ns.sigs, t))
    decreases W.last - t, st, 1, spins
  {
    LoweringPreserves(G, W, st.stat, d, p.stat, ns, t);
    var r := NetRun(W, p.stat, ns, t);
    if r.NetDone? {
      if r.at > t {
        ForeverPreserved(G, W, st, d, p, W.spins, r.store, r.at);
      } else if spins > 0 {
        ForeverPreserved(G, W, st, d, p, spins - 1, r.store, r.at);
      }
    }
  }

  lemma {:induction false} RepeatPreserved(G: Elab, W: World, body: Statement, d: Des, nbody: NetProc,
                                           n: nat, ns: NetStore, t: nat)
    requires Fair(G, W, ns.sigs, t) && SizesFit(G, body)
    requires Elaborates(G, body, d, nbody)
    ensures Sim(G, NetRunRepeat(W, nbody, n, ns, t), RunRepeat(G, W, body, n, ns.sigs, t))
    decreases W.last - t, body, 3, n
  {
    if n > 0 {
      LoweringPreserves(G, W, body, d, nbody, ns, t);
      var r := NetRun(W, nbody, ns, t);
      if r.NetDone? {
        RepeatPreserved(G, W, body, d, nbody, n - 1, r.store, r.at);
      }
    }
  }

  /** Folding a constant count that fits leaves as many runs as the count says. */
  lemma RepeatedRun(G: Elab, W: World, e: PExpr, count: NetExpr, nbody: NetProc, n: nat, ns: NetStore, t: nat)
    requires Fair(G, W, ns.sigs, t) && Fits(G, e)
    requires G.known(e)
    requires count == NetDyn(e) || (G.fold(e).Some? && count == NetConst(G.fold(e).value))
    requires n == RepeatCount(Eval(W.I, e, ns.sigs), G.signed(e))
    ensures var nets := LowerRepeated(G, e, count, nbody);
            && |nets| <= 1
            && (if nets == [] then NetDone(ns, t) else NetRun(W, nets[0], ns, t)) == NetRunRepeat(W, nbody, n, ns, t)
  {
    assert SoundAt(G, W.I, e, ns.sigs);
    if count.NetConst? {
      CountFoldExact(count.value, G.signed(e));
    }
    if n == 1 {
      var r := NetRun(W, nbody, ns, t);
      if r.NetDone? {
        assert NetRunRepeat(W, nbody, 0, r.store, r.at) == r;
      }
    }
  }

  /** Blocking n times on a wait that does nothing. */
  lemma {:induction false} WaitsRun(W: World, evs: seq<Event>, n: nat, ns: NetStore, t: nat)
    requires t <= W.last
    ensures NetRunRepeat(W, NetEvWait(evs, Some(NOOP)), n, ns, t) == Resume(ns, AwaitEvents(W, evs, n, ns.sigs, t))
    decreases n
  {
    if n > 0 {
      var o := AwaitEvent(W, evs, ns.sigs, t);
      if o.Done? {
        var wait, ns' := NetEvWait(evs, Some(NOOP)), ns.(sigs := o.store);
        NoopRun(W, ns', o.at);
        assert NetRun(W, wait, ns, t) == NetDone(ns', o.at);
        WaitsRun(W, evs, n - 1, ns', o.at);
      }
    }
  }

  lemma {:induction false} AssignPreserved(G: Elab, W: World, st: Statement, d: Des, p: NetProc, ns: NetStore, t: nat)
    requires st.PAssign?
    requires Fair(G, W, ns.sigs, t) && SizesFit(G, st)
    requires Elaborates(G, st, d, p)
    ensures Sim(G, NetRun(W, p, ns, t), Run(G, W, st, ns.sigs, t))
  {
    match st.control
    case Plain =>
      PadStores(G, W, G.sized(st.rval, SigWidth(G, st.lval)), SigWidth(G, st.lval), d, ns);
      TypedStore(G, ns.sigs, st.lval, Stored(G, W.I, st.lval, st.rval, ns.sigs));
    case Delayed(_) => DelayedAssignPreserved(G, W, st, d, p, ns, t);
    case AtEvent(_) => EventAssignPreserved(G, W, st, d, p, ns, t);
    case AtEvents(_, _) => RepeatedAssignPreserved(G, W, st, d, p, ns, t);
  }

  /** The value of the right-hand side, as the l-value will hold it, goes to a local net. */
  function Keep(G: Elab, x: string, e: PExpr, d: Des, k: nat): NetProc
    requires ElabExpr(G, G.sized(e, SigWidth(G, x)), d).0.Some?
  {
    var w := SigWidth(G, x);
    var sized := G.sized(e, w);
    NetAssign(Local(k, w), Pad(G, sized, ElabExpr(G, sized, d).0.value, w))
  }

  lemma KeepRun(G: Elab, W: World, x: string, e: PExpr, d: Des, k: nat, ns: NetStore, t: nat) returns (ns1: NetStore)
    requires Sound(G, W.I) && Typed(G, ns.sigs) && t <= W.last
    requires ElabExpr(G, G.sized(e, SigWidth(G, x)), d).0.Some?
    ensures ns1 == ns.(locals := ns.locals[k := Stored(G, W.I, x, e, ns.sigs)])
    ensures NetRun(W, Keep(G, x, e, d, k), ns, t) == NetDone(ns1, t)
  {
    PadStores(G, W, G.sized(e, SigWidth(G, x)), SigWidth(G, x), d, ns);
    ns1 := ns.(locals := ns.locals[k := Stored(G, W.I, x, e, ns.sigs)]);
  }

  lemma DelayRun(W: World, p: NetProc, ns: NetStore, t: nat, o: Outcome)
    requires t <= W.last && p.NetPDelay?
    requires o == AwaitTime(W, W.clock(t) + W.ticks(NetEval(W.I, p.delay, ns)), ns.sigs, t)
    ensures NetRun(W, p, ns, t)
            == if o.Cut? then NetCut else NetRunOpt(W, p.stat_, ns.(sigs := o.store), o.at)
  {
  }

  lemma DelayedCode(G: Elab, st: Statement, d: Des, p: NetProc)
    requires st.PAssign? && st.control.Delayed? && Elaborates(G, st, d, p)
    ensures var x, k := st.lval, d.locals;
            var delay := ElabExpr(G, st.control.delay, d).0;
            && x in G.declared && delay.Some? && ElabExpr(G, G.sized(st.rval, SigWidth(G, x)), d).0.Some?
            && p == NetBlock(false, [Keep(G, x, st.rval, d, k),
                                     NetPDelay(delay.value, Some(NetAssign(Sig(x, SigWidth(G, x)), NetLocal(k))))])
  {
    assert ElabExpr(G, st.control.delay, d).1 == d;
  }

  lemma DelayedAssignPreserved(G: Elab, W: World, st: Statement, d: Des, p: NetProc, ns: NetStore, t: nat)
    requires st.PAssign? && st.control.Delayed?
    requires Fair(G, W, ns.sigs, t)
    requires Elaborates(G, st, d, p)
    ensures Sim(G, NetRun(W, p, ns, t), Run(G, W, st, ns.sigs, t))
  {
    var x, e, k := st.lval, st.rval, d.locals;
    DelayedCode(G, st, d, p);
    var ns1 := KeepRun(G, W, x, e, d, k, ns, t);
    ElabExprValue(G, W, st.control.delay, d, ns1);
    var a2 := NetAssign(Sig(x, SigWidth(G, x)), NetLocal(k));
    BlockTyped(G, W, st.control, ns.sigs, t);
    var o := Block(G, W, st.control, ns.sigs, t);
    StoreAfter(G, W, a2, ns1.locals[k], ns1, o);
    DelayRun(W, p.list[1], ns1, t, o);
    PairRun(W, p.list, ns, t);
  }

  lemma EventAssignPreserved(G: Elab, W: World, st: Statement, d: Des, p: NetProc, ns: NetStore, t: nat)
    requires st.PAssign? && st.control.AtEvent?
    requires Fair(G, W, ns.sigs, t)
    requires Elaborates(G, st, d, p)
    ensures Sim(G, NetRun(W, p, ns, t), Run(G, W, st, ns.sigs, t))
  {
    var x, e, k := st.lval, st.rval, d.locals;
    var ns1 := KeepRun(G, W, x, e, d, k, ns, t);
    var a2 := NetAssign(Sig(x, SigWidth(G, x)), NetLocal(k));
    assert p.list == [Keep(G, x, e, d, k), NetEvWait(st.control.events, Some(a2))];
    BlockTyped(G, W, st.control, ns.sigs, t);
    StoreAfter(G, W, a2, ns1.locals[k], ns1, Block(G, W, st.control, ns.sigs, t));
    PairRun(W, p.list, ns, t);
  }

  lemma {:induction false} RepeatedAssignPreserved(G: Elab, W: World, st: Statement, d: Des, p: NetProc,
                                                   ns: NetStore, t: nat)
    requires st.PAssign? && st.control.AtEvents?
    requires Fair(G, W, ns.sigs, t) && SizesFit(G, st)
    requires Elaborates(G, st, d, p)
    ensures Sim(G, NetRun(W, p, ns, t), Run(G, W, st, ns.sigs, t))
  {
    var x, e, k := st.lval, st.rval, d.locals;
    var n, evs := st.control.count, st.control.events;
    var d3 := d.(locals := k + 1);
    var (count, d4) := ElabExpr(G, n, d3);
    var ns1 := KeepRun(G, W, x, e, d, k, ns, t);
    ElabExprValue(G, W, n, d3, ns1);
    var rounds := RepeatCount(Eval(W.I, n, ns.sigs), G.signed(n));
    var a1, a2 := Keep(G, x, e, d, k), NetAssign(Sig(x, SigWidth(G, x)), NetLocal(k));
    var wait := NetEvWait(evs, Some(NOOP));
    var nets := LowerRepeated(G, n, count.value, wait);
    assert p == NetBlock(false, [a1] + nets + [a2]);
    WaitsRun(W, evs, rounds, ns1, t);
    RepeatedRun(G, W, n, count.value, wait, rounds, ns1, t);
    AwaitEventsTyped(G, W, evs, rounds, ns.sigs, t);
    StoreAfter(G, W, a2, ns1.locals[k], ns1, AwaitEvents(W, evs, rounds, ns.sigs, t));
    AroundRun(W, a1, nets, a2, ns, ns1, t);
  }

  /** A block of a first and a last statement around at most one other. */
  lemma AroundRun(W: World, a1: NetProc, nets: seq<NetProc>, a2: NetProc, ns: NetStore, ns1: NetStore, t: nat)
    requires t <= W.last && NetRun(W, a1, ns, t) == NetDone(ns1, t) && |nets| <= 1
    ensures var r := if nets == [] then NetDone(ns1, t) else NetRun(W, nets[0], ns1, t);
            NetRunList(W, [a1] + nets + [a2], ns, t) == if r.NetCut? then NetCut else NetRun(W, a2, r.store, r.at)
  {
    var list := [a1] + nets + [a2];
    assert list[0] == a1;
    assert NetRunList(W, list, ns, t) == NetRunList(W, list[1..], ns1, t);
    if nets == [] {
      assert list[1..] == [a2] && [a2][1..] == [];
      var r2 := NetRun(W, a2, ns1, t);
      if r2.NetDone? {
        assert NetRunList(W, [], r2.store, r2.at) == r2;
      }
    } else {
      assert list[1..] == [nets[0], a2];
      PairRun(W, list[1..], ns1, t);
    }
  }

  /** The final assignment stores the value the local net kept while blocked. */
  lemma StoreAfter(G: Elab, W: World, a2: NetProc, v: Bits, ns: NetStore, o: Outcome)
    requires a2.NetAssign? && a2.lval.Sig? && a2.rval.NetLocal?
    requires a2.rval.net in ns.locals && ns.locals[a2.rval.net] == v
    requires a2.lval.width == |v| == SigWidth(G, a2.lval.name)
    requires o.Done? ==> o.at <= W.last && Typed(G, o.store)
    ensures o.Done? ==> NetRun(W, a2, ns.(sigs := o.store), o.at)
                        == NetDone(ns.(sigs := o.store[a2.lval.name := v]), o.at)
    ensures o.Done? ==> Typed(G, o.store[a2.lval.name := v])
  {
    if o.Done? {
      TypedStore(G, o.store, a2.lval.name, v);
    }
  }

  lemma BlockTyped(G: Elab, W: World, control: Control, s: Store, t: nat)
    requires KeepsTyped(G, W) && Typed(G, s) && t <= W.last
    ensures var r := Block(G, W, control, s, t); r.Done? ==> Typed(G, r.store)
  {
    match control
    case Plain =>
    case Delayed(d) => AwaitTimeTyped(G, W, W.clock(t) + W.ticks(Eval(W.I, d, s)), s, t);
    case AtEvent(evs) => AwaitEventTyped(G, W, evs, s, t);
    case AtEvents(n, evs) => AwaitEventsTyped(G, W, evs, RepeatCount(Eval(W.I, n, s), G.signed(n)), s, t);
  }

  lemma {:induction false} WaitPreserved(G: Elab, W: World, st: Statement, d: Des, p: NetProc, ns: NetStore, t: nat)
    requires st.PWait?
    requires Fair(G, W, ns.sigs, t) && SizesFit(G, st)
    requires Elaborates(G, st, d, p)
    ensures Sim(G, NetRun(W, p, ns, t), Run(G, W, st, ns.sigs, t))
    decreases W.last - t, st, 1, 1
  {
    if G.fold(st.cond).Some? {
      WaitConstantPreserved(G, W, st, d, p, ns, t);
    } else {
      WaitLoopPreserved(G, W, st, d, p, ns, t);
    }
  }

  lemma {:induction false} WaitConstantPreserved(G: Elab, W: World, st: Statement, d: Des, p: NetProc,
                                                 ns: NetStore, t: nat)
    requires st.PWait? && G.fold(st.cond).Some?
    requires Fair(G, W, ns.sigs, t) && SizesFit(G, st)
    requires Elaborates(G, st, d, p)
    ensures Sim(G, NetRun(W, p, ns, t), Run(G, W, st, ns.sigs, t))
    decreases W.last - t, st, 1, 0
  {
    assert G.known(st.cond);
    assert SoundAt(G, W.I, st.cond, ns.sigs);
    if Truth(G.fold(st.cond).value) {
      OptPreserved(G, W, st.stat_, d, LowerOpt(G, st.stat_, d).0, ns, t);
      NoopRun(W, ns, t);
    } else {
      NeverTrue(G, W, st.cond, ns.sigs, t);
    }
  }

  lemma {:induction false} WaitLoopPreserved(G: Elab, W: World, st: Statement, d: Des, p: NetProc,
                                             ns: NetStore, t: nat)
    requires st.PWait? && G.fold(st.cond).None?
    requires Fair(G, W, ns.sigs, t) && SizesFit(G, st)
    requires Elaborates(G, st, d, p)
    ensures Sim(G, NetRun(W, p, ns, t), Run(G, W, st, ns.sigs, t))
    decreases W.last - t, st, 1, 0
  {
    var net := LowerOpt(G, st.stat_, d).0;
    WaitLoop(G, W, st.cond, p.list[0], W.spins, ns, t);
    PairRun(W, p.list, ns, t);
    AwaitTrueTyped(G, W, st.cond, ns.sigs, t);
    var o := AwaitTrue(W, st.cond, ns.sigs, t);
    if o.Done? {
      OptPreserved(G, W, st.stat_, d, net, ns.(sigs := o.store), o.at);
      NoopRun(W, ns.(sigs := o.store), o.at);
    }
  }

  /** A constant condition that is not true is never waited out, nor is an event
      control without events. */
  lemma {:induction false} NeverTrue(G: Elab, W: World, e: PExpr, s: Store, t: nat)
    requires Fair(G, W, s, t) && G.known(e)
    requires G.fold(e).Some? && !Truth(G.fold(e).value)
    ensures AwaitTrue(W, e, s, t).Cut? && AwaitEvent(W, [], s, t).Cut?
    decreases W.last - t
  {
    assert SoundAt(G, W.I, e, s);
    if t < W.last {
      NeverTrue(G, W, e, W.step(t, s), t + 1);
    }
  }
}
