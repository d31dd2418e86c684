/** Consequences of the preservation theorem: completion and divergence, waits,
    intra-assignment timing, and the exact limit of count folding. */
module LoweringTheorems {
  import opened Verinum
  import opened PExprs
  import opened World
  import opened PForm
  import opened Netlist
  import opened Elaborate
  import opened Preservation
  import opened Instants

  /** The same world with later cut-offs. */
  ghost predicate Extends(V: World, W: World) {
    V == W.(last := V.last, spins := V.spins) && V.last >= W.last && V.spins >= W.spins
  }

  lemma {:induction false} AwaitTimeExtends(W: World, V: World, due: nat, s: Store, t: nat)
    requires Extends(V, W) && t <= W.last
    ensures AwaitTime(W, due, s, t).Done? ==> AwaitTime(V, due, s, t) == AwaitTime(W, due, s, t)
    decreases W.last - t
  {
    if t < W.last {
      AwaitTimeExtends(W, V, due, W.step(t, s), t + 1);
    }
  }

  lemma {:induction false} AwaitEventExtends(W: World, V: World, evs: seq<Event>, s: Store, t: nat)
    requires Extends(V, W) && t <= W.last
    ensures AwaitEvent(W, evs, s, t).Done? ==> AwaitEvent(V, evs, s, t) == AwaitEvent(W, evs, s, t)
    decreases W.last - t
  {
    if t < W.last {
      var s' := W.step(t, s);
      assert SomeOccurs(W, evs, t, s, s') <==> SomeOccurs(V, evs, t, s, s') by {
        forall i | 0 <= i < |evs| ensures Occurs(W, evs[i], t, s, s') <==> Occurs(V, evs[i], t, s, s') {
        }
      }
      AwaitEventExtends(W, V, evs, s', t + 1);
    }
  }

  lemma {:induction false} AwaitEventsExtends(W: World, V: World, evs: seq<Event>, n: nat, s: Store, t: nat)
    requires Extends(V, W) && t <= W.last
    ensures AwaitEvents(W, evs, n, s, t).Done? ==> AwaitEvents(V, evs, n, s, t) == AwaitEvents(W, evs, n, s, t)
    decreases n
  {
    AwaitEventExtends(W, V, evs, s, t);
    var o := AwaitEvent(W, evs, s, t);
    if n > 0 && o.Done? {
      AwaitEventsExtends(W, V, evs, n - 1, o.store, o.at);
    }
  }

  lemma {:induction false} AwaitTrueExtends(W: World, V: World, e: PExpr, s: Store, t: nat)
    requires Extends(V, W) && t <= W.last
    ensures AwaitTrue(W, e, s, t).Done? ==> AwaitTrue(V, e, s, t) == AwaitTrue(W, e, s, t)
    decreases W.last - t
  {
    if t < W.last {
      AwaitTrueExtends(W, V, e, W.step(t, s), t + 1);
    }
  }

  lemma {:induction false} SelectSame(W: World, V: World, kind: CaseKind, v: Bits, items: seq<CaseItem>,
                                      default: Option<Statement>, s: Store)
    requires Extends(V, W)
    ensures Select(W, kind, v, items, default, s) == Select(V, kind, v, items, default, s)
    decreases |items|
  {
    if items != [] {
      assert AnyGuard(W, kind, v, items[0].guards, s) <==> AnyGuard(V, kind, v, items[0].guards, s);
      SelectSame(W, V, kind, v, items[1..], default, s);
      SelectSame(W, V, kind, v, items[1..], items[0].stat, s);
    }
  }

  /** A run that completes completes the same way under later cut-offs. */
  lemma {:induction false} RunExtends(G: Elab, W: World, V: World, st: Statement, s: Store, t: nat)
    requires Extends(V, W) && t <= W.last
    ensures Run(G, W, st, s, t).Done? ==> Run(G, V, st, s, t) == Run(G, W, st, s, t)
    decreases W.last - t, st, 2, 0
  {
    match st
    case PAssign(_, _, control) => BlockExtends(G, W, V, control, s, t);
    case PBlock(_, list) => ListExtends(G, W, V, list, s, t);
    case PCase(_, _, _) => CaseExtends(G, W, V, st, s, t);
    case PCondit(e, if_, else_) =>
      var branch := if Truth(Eval(W.I, e, s)) then if_ else else_;
      if branch.Some? {
        RunExtends(G, W, V, branch.value, s, t);
      }
    case PFor(x, e, _, _, _, _) =>
      LoopExtends(G, W, V, st, W.spins, V.spins, s[x := Stored(G, W.I, x, e, s)], t);
    case PWhile(_, _) => LoopExtends(G, W, V, st, W.spins, V.spins, s, t);
    case PRepeat(e, body) => RepeatExtends(G, W, V, body, RepeatCount(Eval(W.I, e, s), G.signed(e)), s, t);
    case PForever(_) => LoopExtends(G, W, V, st, W.spins, V.spins, s, t);
    case PDelay(_, stat) => BlockingExtends(G, W, V, st, stat, s, t);
    case PEvent(_, stat) => BlockingExtends(G, W, V, st, stat, s, t);
    case PWait(_, stat) => BlockingExtends(G, W, V, st, stat, s, t);
  }

  lemma {:induction false} CaseExtends(G: Elab, W: World, V: World, st: Statement, s: Store, t: nat)
    requires st.PCase? && Extends(V, W) && t <= W.last
    ensures Run(G, W, st, s, t).Done? ==> Run(G, V, st, s, t) == Run(G, W, st, s, t)
    decreases W.last - t, st, 1, 0
  {
    var v := Eval(W.I, st.expr, s);
    SelectSame(W, V, st.kind, v, st.items, None, s);
    var chosen := Select(W, st.kind, v, st.items, None, s);
    if chosen.Some? {
      var i :| 0 <= i < |st.items| && st.items[i].stat == chosen;
      RunExtends(G, W, V, chosen.value, s, t);
    }
  }

  lemma {:induction false} BlockingExtends(G: Elab, W: World, V: World, st: Statement, stat: Option<Statement>,
                                           s: Store, t: nat)
    requires (st.PDelay? || st.PEvent? || st.PWait?) && stat == st.stat_ && Extends(V, W) && t <= W.last
    ensures Run(G, W, st, s, t).Done? ==> Run(G, V, st, s, t) == Run(G, W, st, s, t)
    decreases W.last - t, st, 1, 0
  {
    var o := Blocked(W, st, s, t);
    match st {
      case PDelay(d, _) => AwaitTimeExtends(W, V, W.clock(t) + W.ticks(Eval(W.I, d, s)), s, t);
      case PEvent(evs, _) => AwaitEventExtends(W, V, evs, s, t);
      case PWait(e, _) => AwaitTrueExtends(W, V, e, s, t);
    }
    BlockedRun(G, W, st, s, t);
    BlockedRun(G, V, st, s, t);
    ResumedExtends(G, W, V, stat, o);
  }

  /** The blocking of a delay, an event control or a wait. */
  function Blocked(W: World, st: Statement, s: Store, t: nat): (o: Outcome)
    requires (st.PDelay? || st.PEvent? || st.PWait?) && t <= W.last
    ensures o.Done? ==> t <= o.at <= W.last
  {
    match st
    case PDelay(d, _) => AwaitTime(W, W.clock(t) + W.ticks(Eval(W.I, d, s)), s, t)
    case PEvent(evs, _) => AwaitEvent(W, evs, s, t)
    case PWait(e, _) => AwaitTrue(W, e, s, t)
  }

  lemma BlockedRun(G: Elab, W: World, st: Statement, s: Store, t: nat)
    requires (st.PDelay? || st.PEvent? || st.PWait?) && t <= W.last
    ensures var o := Blocked(W, st, s, t);
            Run(G, W, st, s, t) == if o.Cut? then Cut else RunOpt(G, W, st.stat_, o.store, o.at)
  {
  }

  lemma {:induction false} ResumedExtends(G: Elab, W: World, V: World, stat: Option<Statement>, o: Outcome)
    requires Extends(V, W) && (o.Done? ==> o.at <= W.last)
    ensures o.Done? ==> var r := RunOpt(G, W, stat, o.store, o.at); r.Done? ==> RunOpt(G, V, stat, o.store, o.at) == r
    decreases if o.Done? then W.last - o.at else 0, stat, 3, 0
  {
    if o.Done? && stat.Some? {
      RunExtends(G, W, V, stat.value, o.store, o.at);
    }
  }

  lemma BlockExtends(G: Elab, W: World, V: World, control: Control, s: Store, t: nat)
    requires Extends(V, W) && t <= W.last
    ensures Block(G, W, control, s, t).Done? ==> Block(G, V, control, s, t) == Block(G, W, control, s, t)
  {
    match control
    case Plain =>
    case Delayed(d) => AwaitTimeExtends(W, V, W.clock(t) + W.ticks(Eval(W.I, d, s)), s, t);
    case AtEvent(evs) => AwaitEventExtends(W, V, evs, s, t);
    case AtEvents(n, evs) => AwaitEventsExtends(W, V, evs, RepeatCount(Eval(W.I, n, s), G.signed(n)), s, t);
  }

  lemma {:induction false} ListExtends(G: Elab, W: World, V: World, list: seq<Statement>, s: Store, t: nat)
    requires Extends(V, W) && t <= W.last
    ensures RunList(G, W, list, s, t).Done? ==> RunList(G, V, list, s, t) == RunList(G, W, list, s, t)
    decreases W.last - t, list, 0, 0
  {
    if list != [] {
      RunExtends(G, W, V, list[0], s, t);
      var o := Run(G, W, list[0], s, t);
      if o.Done? {
        ListExtends(G, W, V, list[1..], o.store, o.at);
      }
    }
  }

  lemma {:induction false} RepeatExtends(G: Elab, W: World, V: World, body: Statement, n: nat, s: Store, t: nat)
    requires Extends(V, W) && t <= W.last
    ensures RunRepeat(G, W, body, n, s, t).Done? ==> RunRepeat(G, V, body, n, s, t) == RunRepeat(G, W, body, n, s, t)
    decreases W.last - t, body, 3, n
  {
    if n > 0 {
      RunExtends(G, W, V, body, s, t);
      var o := Run(G, W, body, s, t);
      if o.Done? {
        RepeatExtends(G, W, V, body, n - 1, o.store, o.at);
      }
    }
  }

  function RunLoop(G: Elab, W: World, st: Statement, spins: nat, s: Store, t: nat): Outcome
    requires (st.PFor? || st.PWhile? || st.PForever?) && t <= W.last
  {
    if st.PFor? then RunFor(G, W, st, spins, s, t)
    else if st.PWhile? then RunWhile(G, W, st, spins, s, t)
    else RunForever(G, W, st, spins, s, t)
  }

  lemma {:induction false} LoopExtends(G: Elab, W: World, V: World, st: Statement, spins: nat, spins': nat,
                                       s: Store, t: nat)
    requires (st.PFor? || st.PWhile? || st.PForever?) && Extends(V, W) && t <= W.last && spins <= spins'
    ensures RunLoop(G, W, st, spins, s, t).Done? ==>
              RunLoop(G, V, st, spins', s, t) == RunLoop(G, W, st, spins, s, t)
    decreases W.last - t, st, 1, spins
  {
    RunExtends(G, W, V, st.stat, s, t);
    var o := Run(G, W, st.stat, s, t);
    if o.Done? {
      var s' := if st.PFor? then o.store[st.name2 := Stored(G, W.I, st.name2, st.expr2, o.store)] else o.store;
      if o.at > t {
        LoopExtends(G, W, V, st, W.spins, V.spins, s', o.at);
      } else if spins > 0 {
        LoopExtends(G, W, V, st, spins - 1, spins' - 1, s', o.at);
      }
    }
  }

  function Bounded(W: World, last: nat, spins: nat): World {
    W.(last := last, spins := spins)
  }

  /** The statement, started at instant 0, completes with store s' at instant t'. */
  ghost predicate Completes(G: Elab, W: World, st: Statement, s: Store, s': Store, t': nat) {
    exists last: nat, spins: nat :: Run(G, Bounded(W, last, spins), st, s, 0) == Done(s', t')
  }

  ghost predicate NetCompletes(W: World, p: NetProc, ns: NetStore, s': Store, t': nat) {
    exists last: nat, spins: nat ::
      var r := NetRun(Bounded(W, last, spins), p, ns, 0); r.NetDone? && r.store.sigs == s' && r.at == t'
  }

  /** Completion is unique: the cut-offs do not choose the result. */
  lemma CompletionUnique(G: Elab, W: World, st: Statement, s: Store, s1: Store, t1: nat, s2: Store, t2: nat)
    requires Completes(G, W, st, s, s1, t1) && Completes(G, W, st, s, s2, t2)
    ensures s1 == s2 && t1 == t2
  {
    var last1: nat, spins1: nat :| Run(G, Bounded(W, last1, spins1), st, s, 0) == Done(s1, t1);
    var last2: nat, spins2: nat :| Run(G, Bounded(W, last2, spins2), st, s, 0) == Done(s2, t2);
    var V := Bounded(W, last1 + last2, spins1 + spins2);
    RunExtends(G, Bounded(W, last1, spins1), V, st, s, 0);
    RunExtends(G, Bounded(W, last2, spins2), V, st, s, 0);
  }

  /** The netlist completes exactly as the statement does; in particular both diverge
      or block for ever on the same inputs. */
  lemma SameCompletion(G: Elab, W: World, st: Statement, d: Des, p: NetProc, ns: NetStore)
    requires Fair(G, W, ns.sigs, 0) && SizesFit(G, st) && Elaborates(G, st, d, p)
    ensures forall s', t': nat :: NetCompletes(W, p, ns, s', t') <==> Completes(G, W, st, ns.sigs, s', t')
  {
    forall last: nat, spins: nat
      ensures Sim(G, NetRun(Bounded(W, last, spins), p, ns, 0), Run(G, Bounded(W, last, spins), st, ns.sigs, 0))
    {
      LoweringPreserves(G, Bounded(W, last, spins), st, d, p, ns, 0);
    }
  }

  /** The netlist for `wait (e) stat` starts stat at the first instant at which e is
      true, and never when there is none; constant conditions included. */
  lemma WaitStartsAtFirstTrue(G: Elab, W: World, e: PExpr, stat: Option<Statement>, d: Des, p: NetProc,
                              ns: NetStore, t: nat)
    requires Fair(G, W, ns.sigs, t) && OptFits(G, stat)
    requires Elaborates(G, PWait(e, stat), d, p)
    ensures forall t': nat | FirstTrue(W, e, ns.sigs, t, t') && t' <= W.last ::
              Sim(G, NetRun(W, p, ns, t), RunOpt(G, W, stat, Trajectory(W, ns.sigs, t, t' - t), t'))
    ensures (forall t': nat | t' <= W.last :: !FirstTrue(W, e, ns.sigs, t, t')) ==> NetRun(W, p, ns, t).NetCut?
  {
    LoweringPreserves(G, W, PWait(e, stat), d, p, ns, t);
    var o := AwaitTrue(W, e, ns.sigs, t);
    forall t': nat | FirstTrue(W, e, ns.sigs, t, t') && t' <= W.last
      ensures o == Done(Trajectory(W, ns.sigs, t, t' - t), t')
    {
      AwaitTrueExact(W, e, ns.sigs, t, Trajectory(W, ns.sigs, t, t' - t), t');
    }
    if o.Done? {
      AwaitTrueExact(W, e, ns.sigs, t, o.store, o.at);
    }
  }

  /** The first instant after t whose clock has reached the due time. */
  ghost predicate FirstDue(W: World, due: nat, t: nat, t': nat) {
    t < t' && W.clock(t') >= due && forall u | t < u < t' :: W.clock(u) < due
  }

  /** When an intra-assignment control that starts at instant t lets the store happen. */
  ghost predicate ResumesAt(G: Elab, W: World, control: Control, s: Store, t: nat, t': nat) {
    match control
    case Plain => t' == t
    case Delayed(d) => FirstDue(W, W.clock(t) + W.ticks(Eval(W.I, d, s)), t, t')
    case AtEvent(evs) => Nth(W, evs, 1, s, t, t')
    case AtEvents(n, evs) => Nth(W, evs, RepeatCount(Eval(W.I, n, s), G.signed(n)), s, t, t')
  }

  /** Whatever the other processes write meanwhile, the netlist assigns the value the
      right-hand side had at the start, resized to the l-value, over the signals as they
      have become, exactly when the delay is over or the n-th event has happened. */
  lemma IntraAssignmentExact(G: Elab, W: World, x: string, e: PExpr, control: Control, d: Des, p: NetProc,
                             ns: NetStore, t: nat, s': Store, t': nat)
    requires Fair(G, W, ns.sigs, t)
    requires SizesFit(G, PAssign(x, e, control)) && Elaborates(G, PAssign(x, e, control), d, p)
    ensures var r := NetRun(W, p, ns, t);
            (r.NetDone? && r.store.sigs == s' && r.at == t') <==>
            && t' <= W.last
            && ResumesAt(G, W, control, ns.sigs, t, t')
            && t <= t'
            && s' == Trajectory(W, ns.sigs, t, t' - t)[x := Stored(G, W.I, x, e, ns.sigs)]
  {
    LoweringPreserves(G, W, PAssign(x, e, control), d, p, ns, t);
    var s := ns.sigs;
    var o := Block(G, W, control, s, t);
    if o.Done? {
      BlockExact(G, W, control, s, t, o.store, o.at);
    }
    if t <= t' {
      BlockExact(G, W, control, s, t, Trajectory(W, s, t, t' - t), t');
    }
  }

  lemma DelayExact(W: World, due: nat, s: Store, t: nat, s': Store, t': nat)
    requires t <= W.last
    ensures AwaitTime(W, due, s, t) == Done(s', t') <==>
            t' <= W.last && FirstDue(W, due, t, t') && s' == Trajectory(W, s, t, t' - t)
  {
    AwaitTimeExact(W, due, s, t, s', t');
  }

  lemma PlainExact(W: World, s: Store, t: nat, s': Store, t': nat)
    requires t <= W.last
    ensures Done(s, t) == Done(s', t') <==>
            t' <= W.last && t' == t && t <= t' && s' == Trajectory(W, s, t, t' - t)
  {
    assert Trajectory(W, s, t, 0) == s;
  }

  lemma BlockExact(G: Elab, W: World, control: Control, s: Store, t: nat, s': Store, t': nat)
    requires t <= W.last
    ensures Block(G, W, control, s, t) == Done(s', t') <==>
            t' <= W.last && ResumesAt(G, W, control, s, t, t') && t <= t' && s' == Trajectory(W, s, t, t' - t)
  {
    match control
    case Plain => PlainExact(W, s, t, s', t');
    case Delayed(d) => DelayExact(W, W.clock(t) + W.ticks(Eval(W.I, d, s)), s, t, s', t');
    case AtEvent(evs) => AwaitEventExact(W, evs, s, t, s', t');
    case AtEvents(n, evs) => AwaitEventsExact(W, evs, RepeatCount(Eval(W.I, n, s), G.signed(n)), s, t, s', t');
  }

  /** Elaborating `repeat (e)` is right for every body. */
  ghost predicate RepeatPreservedForAll(G: Elab, I: Interp<Bits>, e: PExpr) {
    forall W: World, body, d, p, ns: NetStore, t: nat
      | W.I == I && Fair(G, W, ns.sigs, t) && SizesFit(G, body) && Elaborates(G, PRepeat(e, body), d, p) ::
      Sim(G, NetRun(W, p, ns, t), Run(G, W, PRepeat(e, body), ns.sigs, t))
  }

  /** A repeat with a constant count is preserved if and only if the count fits in
      the 63 bits it is tested with. */
  lemma RepeatFoldExact(G: Elab, I: Interp<Bits>, e: PExpr)
    requires Sound(G, I) && G.fold(e).Some? && G.known(e)
    ensures RepeatPreservedForAll(G, I, e) <==> CountFits(G.fold(e).value, G.signed(e))
  {
    if CountFits(G.fold(e).value, G.signed(e)) {
      forall W: World, body, d, p, ns: NetStore, t: nat
        | W.I == I && Fair(G, W, ns.sigs, t) && SizesFit(G, body) && Elaborates(G, PRepeat(e, body), d, p)
        ensures Sim(G, NetRun(W, p, ns, t), Run(G, W, PRepeat(e, body), ns.sigs, t))
      {
        LoweringPreserves(G, W, PRepeat(e, body), d, p, ns, t);
      }
    } else {
      RepeatFoldFails(G, I, e);
    }
  }

  function ZeroStore(G: Elab): Store {
    map x | x in G.declared :: seq(G.declared[x], _ => V0)
  }

  /** A count that does not fit loses rounds: a body that takes an instant shows it. */
  lemma RepeatFoldFails(G: Elab, I: Interp<Bits>, e: PExpr)
    requires Sound(G, I) && G.fold(e).Some? && G.known(e)
    requires !CountFits(G.fold(e).value, G.signed(e))
    ensures !RepeatPreservedForAll(G, I, e)
  {
    var W, d, ns := OneTickWorld(I), Des(0, 0), NetStore(ZeroStore(G), map[]);
    var b := G.fold(e).value;
    CountFoldExact(b, G.signed(e));
    assert SoundAt(G, I, e, ns.sigs);
    var body, nbody := PDelay(e, None), NetPDelay(NetConst(b), None);
    var p := FoldedAway(G, e, body, nbody, d);
    RoundsCut(G, W, e, body, nbody, p, ns);
    assert Fair(G, W, ns.sigs, 0);
    assert SizesFit(G, body) && W.I == I && Elaborates(G, PRepeat(e, body), d, p);
  }

  /** Signals stand still, each delay is one tick, and the second instant is the last. */
  function OneTickWorld(I: Interp<Bits>): World {
    World(I, (k, a, b) => a == b, b => 1, (t, s) => s, t => t, (t, n) => false, 1, 0)
  }

  lemma RoundsCut(G: Elab, W: World, e: PExpr, body: Statement, nbody: NetProc, p: NetProc, ns: NetStore)
    requires W == OneTickWorld(W.I) && (p == NOOP || p == nbody)
    requires body == PDelay(e, None) && nbody == NetPDelay(NetConst(Eval(W.I, e, ns.sigs)), None)
    requires RepeatCount(Eval(W.I, e, ns.sigs), G.signed(e)) >= 2
    ensures !Sim(G, NetRun(W, p, ns, 0), Run(G, W, PRepeat(e, body), ns.sigs, 0))
  {
    NoopRun(W, ns, 0);
    OneTick(G, W, body, nbody, RepeatCount(Eval(W.I, e, ns.sigs), G.signed(e)), ns);
  }

  /** Such a repeat is folded into nothing or one round. */
  lemma FoldedAway(G: Elab, e: PExpr, body: Statement, nbody: NetProc, d: Des) returns (p: NetProc)
    requires G.fold(e).Some? && G.known(e)
    requires AsLong(G.fold(e).value, G.signed(e)) <= 1
    requires body == PDelay(e, None) && nbody == NetPDelay(NetConst(G.fold(e).value), None)
    ensures Elaborates(G, PRepeat(e, body), d, p) && (p == NOOP || p == nbody)
  {
    assert Elaborates(G, body, d, nbody);
    p := Lower(G, PRepeat(e, body), d).0.value;
  }

  /** With a horizon of one instant, a delay of one tick completes once but not twice. */
  lemma OneTick(G: Elab, W: World, body: Statement, nbody: NetProc, n: nat, ns: NetStore)
    requires body.PDelay? && body.stat_ == None && nbody.NetPDelay? && nbody.stat_ == None && n >= 2
    requires W.last == 1 && W.step(0, ns.sigs) == ns.sigs && W.clock(0) == 0 && W.clock(1) == 1
    requires W.ticks(Eval(W.I, body.delay, ns.sigs)) == 1 && W.ticks(NetEval(W.I, nbody.delay, ns)) == 1
    ensures RunRepeat(G, W, body, n, ns.sigs, 0).Cut?
    ensures NetRun(W, nbody, ns, 0) == NetDone(ns, 1)
  {
    assert AwaitTime(W, 1, ns.sigs, 0) == Done(ns.sigs, 1);
    assert Run(G, W, body, ns.sigs, 0) == Done(ns.sigs, 1);
    assert Run(G, W, body, ns.sigs, 1).Cut?;
    assert RunRepeat(G, W, body, n - 1, ns.sigs, 1).Cut?;
  }

  /** Elaborating `x = repeat (n) @ev e` is right, whatever is assigned and awaited. */
  ghost predicate WaitsPreservedForAll(G: Elab, I: Interp<Bits>, n: PExpr) {
    forall W: World, x, e, evs, d, p, ns: NetStore, t: nat
      | && W.I == I && Fair(G, W, ns.sigs, t)
        && Elaborates(G, PAssign(x, e, AtEvents(n, evs)), d, p) ::
      Sim(G, NetRun(W, p, ns, t), Run(G, W, PAssign(x, e, AtEvents(n, evs)), ns.sigs, t))
  }

  /** An assignment that waits for a constant number of events is preserved if and only
      if the count fits. Something that can be assigned has to be there. */
  lemma WaitsFoldExact(G: Elab, I: Interp<Bits>, n: PExpr, x: string, e: PExpr)
    requires Sound(G, I) && G.fold(n).Some? && G.known(n)
    requires x in G.declared && G.known(G.sized(e, SigWidth(G, x)))
    ensures WaitsPreservedForAll(G, I, n) <==> CountFits(G.fold(n).value, G.signed(n))
  {
    if CountFits(G.fold(n).value, G.signed(n)) {
      forall W: World, x, e, evs, d, p, ns: NetStore, t: nat
        | && W.I == I && Fair(G, W, ns.sigs, t)
          && Elaborates(G, PAssign(x, e, AtEvents(n, evs)), d, p)
        ensures Sim(G, NetRun(W, p, ns, t), Run(G, W, PAssign(x, e, AtEvents(n, evs)), ns.sigs, t))
      {
        LoweringPreserves(G, W, PAssign(x, e, AtEvents(n, evs)), d, p, ns, t);
      }
    } else {
      WaitsFoldFails(G, I, n, x, e);
    }
  }

  /** An event on leaving every instant, of which the second is the last. */
  function EventfulWorld(I: Interp<Bits>): World {
    World(I, (k, a, b) => a == b, b => 1, (t, s) => s, t => t, (t, n) => true, 1, 0)
  }

  lemma WaitsFoldFails(G: Elab, I: Interp<Bits>, n: PExpr, x: string, e: PExpr)
    requires Sound(G, I) && G.fold(n).Some? && G.known(n)
    requires x in G.declared && G.known(G.sized(e, SigWidth(G, x)))
    requires !CountFits(G.fold(n).value, G.signed(n))
    ensures !WaitsPreservedForAll(G, I, n)
  {
    var W, d, ns := EventfulWorld(I), Des(0, 0), NetStore(ZeroStore(G), map[]);
    var evs := [Event.Named("")];
    var st := PAssign(x, e, AtEvents(n, evs));
    CountFoldExact(G.fold(n).value, G.signed(n));
    assert SoundAt(G, I, n, ns.sigs);
    assert Fair(G, W, ns.sigs, 0);
    var p := WaitsFolded(G, n, x, e, evs, d);
    SourceWaits(W, evs, RepeatCount(Eval(I, n, ns.sigs), G.signed(n)), ns.sigs);
    assert Run(G, W, st, ns.sigs, 0).Cut?;
    CodeWaits(G, W, n, x, e, evs, d, p, ns);
    assert Elaborates(G, st, d, p) && !Sim(G, NetRun(W, p, ns, 0), Run(G, W, st, ns.sigs, 0));
  }

  /** Two events do not fit before the last instant. */
  lemma SourceWaits(W: World, evs: seq<Event>, n: nat, s: Store)
    requires W == EventfulWorld(W.I) && evs == [Event.Named("")] && n >= 2
    ensures AwaitEvents(W, evs, n, s, 0).Cut?
  {
    OneEvent(W, evs, s);
    assert AwaitEvents(W, evs, n - 1, s, 1).Cut?;
  }

  lemma OneEvent(W: World, evs: seq<Event>, s: Store)
    requires W == EventfulWorld(W.I) && evs == [Event.Named("")]
    ensures AwaitEvent(W, evs, s, 0) == Done(s, 1) && AwaitEvent(W, evs, s, 1).Cut?
  {
    assert Occurs(W, evs[0], 0, s, s);
    assert SomeOccurs(W, evs, 0, s, s);
  }

  /** The waits are folded into none or one. */
  lemma WaitsFolded(G: Elab, n: PExpr, x: string, e: PExpr, evs: seq<Event>, d: Des) returns (p: NetProc)
    requires G.fold(n).Some? && G.known(n) && evs == [Event.Named("")]
    requires x in G.declared && G.known(G.sized(e, SigWidth(G, x)))
    requires AsLong(G.fold(n).value, G.signed(n)) <= 1
    ensures Elaborates(G, PAssign(x, e, AtEvents(n, evs)), d, p)
    ensures var wait := NetEvWait(evs, Some(NOOP));
            exists nets | nets == [] || nets == [wait] ::
              p == NetBlock(false, [Keep(G, x, e, d, d.locals)] + nets
                                   + [NetAssign(Sig(x, SigWidth(G, x)), NetLocal(d.locals))])
  {
    assert EventKnown(G, evs[0]) && evs[1..] == [];
    assert LowerEvents(G, evs[1..], d.(locals := d.locals + 1)) == ([], d.(locals := d.locals + 1));
    assert LowerEvents(G, evs, d.(locals := d.locals + 1)).0 == evs;
    p := Lower(G, PAssign(x, e, AtEvents(n, evs)), d).0.value;
    var nets := LowerRepeated(G, n, NetConst(G.fold(n).value), NetEvWait(evs, Some(NOOP)));
    assert nets == [] || nets == [NetEvWait(evs, Some(NOOP))];
    assert p == NetBlock(false, [Keep(G, x, e, d, d.locals)] + nets
                                + [NetAssign(Sig(x, SigWidth(G, x)), NetLocal(d.locals))]);
  }

  lemma CodeWaits(G: Elab, W: World, n: PExpr, x: string, e: PExpr, evs: seq<Event>, d: Des, p: NetProc, ns: NetStore)
    requires W == EventfulWorld(W.I) && evs == [Event.Named("")] && Fair(G, W, ns.sigs, 0)
    requires x in G.declared && G.known(G.sized(e, SigWidth(G, x)))
    requires var wait := NetEvWait(evs, Some(NOOP));
             exists nets | nets == [] || nets == [wait] ::
               p == NetBlock(false, [Keep(G, x, e, d, d.locals)] + nets
                                    + [NetAssign(Sig(x, SigWidth(G, x)), NetLocal(d.locals))])
    ensures NetRun(W, p, ns, 0).NetDone?
  {
    var wait, a1 := NetEvWait(evs, Some(NOOP)), Keep(G, x, e, d, d.locals);
    var a2 := NetAssign(Sig(x, SigWidth(G, x)), NetLocal(d.locals));
    var nets :| (nets == [] || nets == [wait]) && p == NetBlock(false, [a1] + nets + [a2]);
    var ns1 := KeepRun(G, W, x, e, d, d.locals, ns, 0);
    OneEvent(W, evs, ns1.sigs);
    NoopRun(W, ns1, 1);
    assert NetRun(W, wait, ns1, 0) == NetDone(ns1, 1);
    AroundRun(W, a1, nets, a2, ns, ns1, 0);
  }
}
