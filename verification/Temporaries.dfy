/** The local nets that elaboration invents: none is used twice. */
module Temporaries {
  import opened Verinum
  import opened PExprs
  import opened World
  import opened PForm
  import opened Netlist
  import opened Elaborate

  /** The local nets that are assigned, as often as they are. */
  function Targets(p: NetProc): multiset<nat>
    decreases p
  {
    match p
    case NetAssign(x, _) => if x.Local? then multiset{x.net} else multiset{}
    case NetBlock(_, list) => ListTargets(list)
    case NetCase(_, _, items) => ItemTargets(items)
    case NetCondit(_, i, e) => OptTargets(i) + OptTargets(e)
    case NetWhile(_, body) => OptTargets(body)
    case NetRepeat(_, _, stat) => Targets(stat)
    case NetForever(stat) => Targets(stat)
    case NetPDelay(_, stat) => OptTargets(stat)
    case NetEvWait(_, stat) => OptTargets(stat)
  }

  function OptTargets(p: Option<NetProc>): multiset<nat>
    decreases p
  {
    if p.None? then multiset{} else Targets(p.value)
  }

  function ListTargets(list: seq<NetProc>): multiset<nat>
    decreases list
  {
    if list == [] then multiset{} else Targets(list[0]) + ListTargets(list[1..])
  }

  function ItemTargets(items: seq<NetItem>): multiset<nat>
    decreases items
  {
    if items == [] then multiset{} else OneTargets(items[0]) + ItemTargets(items[1..])
  }

  function OneTargets(item: NetItem): multiset<nat>
    decreases item
  {
    OptTargets(item.stat)
  }

  function ReadNets(e: NetExpr): set<nat> {
    match e
    case NetConst(_) => {}
    case NetDyn(_) => {}
    case NetLocal(k) => {k}
    case NetNeZero(a) => ReadNets(a)
    case NetOrReduce(a) => ReadNets(a)
    case NetNotOne(a) => ReadNets(a)
    case NetPad(a, _, _) => ReadNets(a)
  }

  /** The local nets that are read. */
  function Sources(p: NetProc): set<nat>
    decreases p
  {
    match p
    case NetAssign(_, e) => ReadNets(e)
    case NetBlock(_, list) => ListSources(list)
    case NetCase(_, e, items) => ReadNets(e) + ItemSources(items)
    case NetCondit(e, i, el) => ReadNets(e) + OptSources(i) + OptSources(el)
    case NetWhile(e, body) => ReadNets(e) + OptSources(body)
    case NetRepeat(e, _, stat) => ReadNets(e) + Sources(stat)
    case NetForever(stat) => Sources(stat)
    case NetPDelay(e, stat) => ReadNets(e) + OptSources(stat)
    case NetEvWait(_, stat) => OptSources(stat)
  }

  function OptSources(p: Option<NetProc>): set<nat>
    decreases p
  {
    if p.None? then {} else Sources(p.value)
  }

  function ListSources(list: seq<NetProc>): set<nat>
    decreases list
  {
    if list == [] then {} else Sources(list[0]) + ListSources(list[1..])
  }

  function ItemSources(items: seq<NetItem>): set<nat>
    decreases items
  {
    if items == [] then {} else OneSources(items[0]) + ItemSources(items[1..])
  }

  function OneSources(item: NetItem): set<nat>
    decreases item
  {
    (if item.guard.Some? then ReadNets(item.guard.value) else {}) + OptSources(item.stat)
  }

  /** Nets from `lo` up to `hi`, each assigned once at most, and none read but these. */
  predicate Owns(targets: multiset<nat>, sources: set<nat>, lo: nat, hi: nat) {
    && lo <= hi
    && (forall k <- targets :: lo <= k < hi && targets[k] == 1)
    && (forall k <- sources :: k in targets)
  }

  predicate CodeOwns(p: Option<NetProc>, lo: nat, hi: nat) {
    Owns(OptTargets(p), OptSources(p), lo, hi)
  }

  lemma OwnsJoin(t1: multiset<nat>, s1: set<nat>, lo: nat, mid: nat, t2: multiset<nat>, s2: set<nat>, hi: nat)
    requires Owns(t1, s1, lo, mid) && Owns(t2, s2, mid, hi)
    ensures Owns(t1 + t2, s1 + s2, lo, hi)
  {
  }

  lemma ElabReadsNothing(G: Elab, e: PExpr, d: Des)
    ensures ElabExpr(G, e, d).1.locals == d.locals
    ensures ElabExpr(G, e, d).0.Some? ==> ReadNets(ElabExpr(G, e, d).0.value) == {}
  {
  }

  lemma {:induction false} EventsKeepNets(G: Elab, evs: seq<Event>, d: Des)
    ensures LowerEvents(G, evs, d).1.locals == d.locals
  {
    if evs != [] {
      EventsKeepNets(G, evs[1..], if EventKnown(G, evs[0]) then d else Fail(d));
    }
  }

  lemma {:induction false} ListOfOne(p: NetProc)
    ensures ListTargets([p]) == Targets(p) && ListSources([p]) == Sources(p)
  {
    assert [p][1..] == [];
  }

  lemma {:induction false} ListOfTwo(p: NetProc, q: NetProc)
    ensures ListTargets([p, q]) == Targets(p) + Targets(q) && ListSources([p, q]) == Sources(p) + Sources(q)
  {
    assert [p, q][1..] == [q];
    ListOfOne(q);
  }

  // The nets of each kind of code.

  lemma NoopNets()
    ensures Targets(NOOP) == multiset{} && Sources(NOOP) == {}
  {
    assert ListTargets([]) == multiset{} && ListSources([]) == {};
  }

  lemma {:induction false} AssignNets(x: Target, e: NetExpr)
    ensures Targets(NetAssign(x, e)) == (if x.Local? then multiset{x.net} else multiset{})
    ensures Sources(NetAssign(x, e)) == ReadNets(e)
  {
  }

  lemma {:induction false} DelayNets(e: NetExpr, p: NetProc)
    ensures Targets(NetPDelay(e, Some(p))) == Targets(p) && Sources(NetPDelay(e, Some(p))) == ReadNets(e) + Sources(p)
  {
    assert OptTargets(Some(p)) == Targets(p) && OptSources(Some(p)) == Sources(p);
  }

  lemma {:induction false} EventNets(evs: seq<Event>, p: NetProc)
    ensures Targets(NetEvWait(evs, Some(p))) == Targets(p) && Sources(NetEvWait(evs, Some(p))) == Sources(p)
  {
    assert OptTargets(Some(p)) == Targets(p) && OptSources(Some(p)) == Sources(p);
  }

  lemma {:induction false} WhileNets(c: NetExpr, list: seq<NetProc>)
    ensures var p := NetWhile(c, Some(NetBlock(false, list)));
            Targets(p) == ListTargets(list) && Sources(p) == ReadNets(c) + ListSources(list)
  {
    var b := NetBlock(false, list);
    assert OptTargets(Some(b)) == Targets(b) && OptSources(Some(b)) == Sources(b);
  }

  lemma {:induction false} RepeatNets(c: NetExpr, signed: bool, p: NetProc)
    ensures Targets(NetRepeat(c, signed, p)) == Targets(p)
    ensures Sources(NetRepeat(c, signed, p)) == ReadNets(c) + Sources(p)
  {
  }

  lemma {:induction false} ProbeLoopNets(c: NetExpr, evs: seq<Event>)
    ensures var p := NetWhile(c, Some(NetEvWait(evs, None))); Targets(p) == multiset{} && Sources(p) == ReadNets(c)
  {
    var w, none: Option<NetProc> := NetEvWait(evs, None), None;
    assert OptTargets(none) == multiset{} && OptSources(none) == {};
    assert Targets(w) == OptTargets(none) && Sources(w) == OptSources(none);
    assert OptTargets(Some(w)) == multiset{} && OptSources(Some(w)) == {};
  }

  lemma {:induction false} PadReads(G: Elab, e: PExpr, ne: NetExpr, w: nat)
    ensures ReadNets(Pad(G, e, ne, w)) <= ReadNets(ne)
  {
  }

  /** The nets in the code of a statement are new: they lie between the counter before and
      the counter after, each is assigned in one place only, and no other is read. */
  lemma {:induction false} NetsFresh(G: Elab, st: Statement, d: Des)
    ensures CodeOwns(Lower(G, st, d).0, d.locals, Lower(G, st, d).1.locals)
    decreases st, 1
  {
    match st
    case PAssign(_, _, _) => AssignFresh(G, st, d);
    case PBlock(_, list) =>
      if |list| == 1 && st.name.None? {
        NetsFresh(G, list[0], d);
      } else {
        ListFresh(G, list, d);
      }
    case PCase(_, e, items) =>
      ElabReadsNothing(G, e, d);
      ItemsFresh(G, items, ElabExpr(G, e, d).1);
    case PCondit(_, _, _) => ConditFresh(G, st, d);
    case PFor(_, _, _, _, _, _) => ForFresh(G, st, d);
    case PWhile(c, body) =>
      ElabReadsNothing(G, c, d);
      NetsFresh(G, body, ElabExpr(G, c, d).1);
    case PRepeat(e, body) => RepeatFresh(G, st, d);
    case PForever(body) => NetsFresh(G, body, d);
    case PDelay(e, stat) =>
      ElabReadsNothing(G, e, d);
      OptFresh(G, stat, ElabExpr(G, e, d).1);
    case PEvent(evs, stat) =>
      OptFresh(G, stat, d);
      EventsKeepNets(G, evs, LowerOpt(G, stat, d).1);
      NoopNets();
      assert stat.None? ==> OptTargets(Some(NOOP)) == multiset{} && OptSources(Some(NOOP)) == {};
    case PWait(_, _) => WaitFresh(G, st, d);
  }

  /** The assignment of the kept value, and the one from it after the wait. */
  ghost predicate Pair(G: Elab, st: Statement, d: Des, a1: NetProc, a2: NetProc)
    requires st.PAssign?
  {
    var w := SigWidth(G, st.lval);
    var sized := G.sized(st.rval, w);
    && ElabExpr(G, sized, d).0.Some?
    && a1 == NetAssign(Local(d.locals, w), Pad(G, sized, ElabExpr(G, sized, d).0.value, w))
    && a2 == NetAssign(Sig(st.lval, w), NetLocal(d.locals))
  }

  lemma {:induction false} PairNets(G: Elab, st: Statement, d: Des, a1: NetProc, a2: NetProc)
    requires st.PAssign? && Pair(G, st, d, a1, a2)
    ensures Targets(a1) == multiset{d.locals} && Sources(a1) == {}
    ensures Targets(a2) == multiset{} && Sources(a2) == {d.locals}
  {
    var w := SigWidth(G, st.lval);
    var sized := G.sized(st.rval, w);
    ElabReadsNothing(G, sized, d);
    PadReads(G, sized, ElabExpr(G, sized, d).0.value, w);
    AssignNets(a1.lval, a1.rval);
    AssignNets(a2.lval, a2.rval);
  }

  /** The code of an assignment that keeps its value has one local net, the next one. */
  ghost predicate OneNet(p: Option<NetProc>, k: nat) {
    p.Some? && Targets(p.value) == multiset{k} && Sources(p.value) == {k}
  }

  lemma {:induction false} DelayedNets(G: Elab, st: Statement, d: Des, a1: NetProc, a2: NetProc)
    requires st.PAssign? && st.control.Delayed? && st.lval in G.declared && Pair(G, st, d, a1, a2)
    requires G.known(st.control.delay)
    ensures OneNet(Lower(G, st, d).0, d.locals) && Lower(G, st, d).1.locals == d.locals + 1
  {
    var delay := ElabExpr(G, st.control.delay, d).0.value;
    ElabReadsNothing(G, st.control.delay, d);
    PairNets(G, st, d, a1, a2);
    DelayNets(delay, a2);
    ListOfTwo(a1, NetPDelay(delay, Some(a2)));
    assert Lower(G, st, d).0 == Some(NetBlock(false, [a1, NetPDelay(delay, Some(a2))]));
  }

  lemma {:induction false} WaitedNets(G: Elab, st: Statement, d: Des, a1: NetProc, a2: NetProc)
    requires st.PAssign? && st.control.AtEvent? && st.lval in G.declared && Pair(G, st, d, a1, a2)
    ensures OneNet(Lower(G, st, d).0, d.locals) && Lower(G, st, d).1.locals == d.locals + 1
  {
    var d3 := d.(locals := d.locals + 1);
    var evs := LowerEvents(G, st.control.events, d3).0;
    EventsKeepNets(G, st.control.events, d3);
    PairNets(G, st, d, a1, a2);
    EventNets(evs, a2);
    ListOfTwo(a1, NetEvWait(evs, Some(a2)));
    assert Lower(G, st, d).0 == Some(NetBlock(false, [a1, NetEvWait(evs, Some(a2))]));
  }

  lemma {:induction false} RepeatedNets(G: Elab, st: Statement, d: Des, a1: NetProc, a2: NetProc)
    requires st.PAssign? && st.control.AtEvents? && st.lval in G.declared && Pair(G, st, d, a1, a2)
    requires G.known(st.control.count)
    ensures OneNet(Lower(G, st, d).0, d.locals) && Lower(G, st, d).1.locals == d.locals + 1
  {
    var d3, n := d.(locals := d.locals + 1), st.control.count;
    var count := ElabExpr(G, n, d3).0.value;
    ElabReadsNothing(G, n, d3);
    EventsKeepNets(G, st.control.events, d3);
    PairNets(G, st, d, a1, a2);
    var wait := NetEvWait(LowerEvents(G, st.control.events, d3).0, Some(NOOP));
    RepeatedFresh(G, n, count, wait, a1, a2);
    assert Lower(G, st, d).0 == Some(NetBlock(false, [a1] + LowerRepeated(G, n, count, wait) + [a2]));
  }

  lemma AssignFresh(G: Elab, st: Statement, d: Des)
    requires st.PAssign?
    ensures CodeOwns(Lower(G, st, d).0, d.locals, Lower(G, st, d).1.locals)
  {
    var x, control, w := st.lval, st.control, SigWidth(G, st.lval);
    var sized := G.sized(st.rval, w);
    if x in G.declared && G.known(sized) {
      var ne := ElabExpr(G, sized, d).0.value;
      var a1, a2 := NetAssign(Local(d.locals, w), Pad(G, sized, ne, w)), NetAssign(Sig(x, w), NetLocal(d.locals));
      if control.Plain? || (control.Delayed? && !G.known(control.delay)) {
        ElabReadsNothing(G, sized, d);
        PadReads(G, sized, ne, w);
        AssignNets(Sig(x, w), Pad(G, sized, ne, w));
      } else if control.Delayed? {
        DelayedNets(G, st, d, a1, a2);
      } else if control.AtEvent? {
        WaitedNets(G, st, d, a1, a2);
      } else if G.known(control.count) {
        RepeatedNets(G, st, d, a1, a2);
      }
    }
  }

  lemma RepeatedFresh(G: Elab, n: PExpr, count: NetExpr, wait: NetProc, a1: NetProc, a2: NetProc)
    requires ReadNets(count) == {} && wait.NetEvWait? && wait.stat_ == Some(NOOP)
    ensures var list := [a1] + LowerRepeated(G, n, count, wait) + [a2];
            ListTargets(list) == Targets(a1) + Targets(a2) && ListSources(list) == Sources(a1) + Sources(a2)
  {
    NoopNets();
    EventNets(wait.events, NOOP);
    RepeatNets(count, G.signed(n), wait);
    var nets := LowerRepeated(G, n, count, wait);
    if nets == [] {
      assert [a1] + nets + [a2] == [a1, a2];
      ListOfTwo(a1, a2);
    } else {
      assert [a1] + nets + [a2] == [a1, nets[0], a2];
      ListOfThree(a1, nets[0], a2);
    }
  }

  lemma {:induction false} ListOfThree(p: NetProc, q: NetProc, r: NetProc)
    ensures ListTargets([p, q, r]) == Targets(p) + (Targets(q) + Targets(r))
    ensures ListSources([p, q, r]) == Sources(p) + (Sources(q) + Sources(r))
  {
    assert [p, q, r][1..] == [q, r];
    ListOfTwo(q, r);
  }

  lemma {:induction false} DropKeepsNets(p: Option<NetProc>)
    ensures OptTargets(DropEmpty(p)) == OptTargets(p) && OptSources(DropEmpty(p)) == OptSources(p)
  {
    if p.Some? && EmptyBlock(p.value) {
      assert ListTargets(p.value.list) == multiset{} && ListSources(p.value.list) == {};
    }
  }

  lemma {:induction false} ConditFresh(G: Elab, st: Statement, d: Des)
    requires st.PCondit?
    ensures CodeOwns(Lower(G, st, d).0, d.locals, Lower(G, st, d).1.locals)
    decreases st, 0
  {
    ElabReadsNothing(G, st.expr, d);
    if G.known(st.expr) {
      if G.fold(st.expr).Some? {
        OptFresh(G, if Truth(G.fold(st.expr).value) then st.if_ else st.else_, d);
      } else {
        var (i, d2) := LowerOpt(G, st.if_, d);
        var (el, d3) := LowerOpt(G, st.else_, d2);
        OptFresh(G, st.if_, d);
        OptFresh(G, st.else_, d2);
        OwnsJoin(OptTargets(i), OptSources(i), d.locals, d2.locals, OptTargets(el), OptSources(el), d3.locals);
        DropKeepsNets(i);
        DropKeepsNets(el);
      }
    }
  }

  lemma {:induction false} LoopNets(start: NetProc, cond: NetExpr, list: seq<NetProc>)
    requires Targets(start) == multiset{} && Sources(start) == {} && ReadNets(cond) == {}
    ensures var p := NetBlock(false, [start, NetWhile(cond, Some(NetBlock(false, list)))]);
            Targets(p) == ListTargets(list) && Sources(p) == ListSources(list)
  {
    WhileNets(cond, list);
    ListOfTwo(start, NetWhile(cond, Some(NetBlock(false, list))));
  }

  /** The nets of the code of a `for` are those of its body. */
  lemma {:induction false} ForNets(G: Elab, st: Statement, init: NetExpr, nbody: Option<NetProc>, step: NetExpr,
                                   cond: NetExpr)
    requires st.PFor? && ReadNets(init) == {} && ReadNets(step) == {} && ReadNets(cond) == {}
    ensures var w1, w2 := SigWidth(G, st.name1), SigWidth(G, st.name2);
            var list := (if nbody.None? then [] else [nbody.value]) + [NetAssign(Sig(st.name2, w2), step)];
            var start := NetAssign(Sig(st.name1, w1), Pad(G, G.sized(st.expr1, w1), init, w1));
            var p := NetBlock(false, [start, NetWhile(cond, Some(NetBlock(false, list)))]);
            Targets(p) == OptTargets(nbody) && Sources(p) == OptSources(nbody)
  {
    var w1, w2 := SigWidth(G, st.name1), SigWidth(G, st.name2);
    var a := NetAssign(Sig(st.name2, w2), step);
    var list := (if nbody.None? then [] else [nbody.value]) + [a];
    var start := NetAssign(Sig(st.name1, w1), Pad(G, G.sized(st.expr1, w1), init, w1));
    PadReads(G, G.sized(st.expr1, w1), init, w1);
    AssignNets(start.lval, start.rval);
    LoopNets(start, cond, list);
    AssignNets(a.lval, a.rval);
    ListWithLast(nbody, a);
  }

  lemma {:induction false} OptListNets(p: Option<NetProc>)
    ensures var b := NetBlock(false, if p.None? then [] else [p.value]);
            Targets(b) == OptTargets(p) && Sources(b) == OptSources(p)
  {
    if p.Some? {
      ListOfOne(p.value);
    }
  }

  lemma {:induction false} ForFresh(G: Elab, st: Statement, d: Des)
    requires st.PFor?
    ensures CodeOwns(Lower(G, st, d).0, d.locals, Lower(G, st, d).1.locals)
    decreases st, 0
  {
    var sized1, sized2 := G.sized(st.expr1, SigWidth(G, st.name1)), G.sized(st.expr2, SigWidth(G, st.name2));
    var (init, d1) := ElabExpr(G, sized1, d);
    if st.name1 in G.declared && init.Some? {
      var (nbody, d2) := Lower(G, st.stat, d1);
      var (step, d3) := ElabExpr(G, sized2, d2);
      var (cond, d4) := ElabExpr(G, st.cond, d3);
      ElabReadsNothing(G, sized1, d);
      ElabReadsNothing(G, sized2, d2);
      ElabReadsNothing(G, st.cond, d3);
      NetsFresh(G, st.stat, d1);
      OptListNets(nbody);
      if step.Some? && cond.Some? {
        ForNets(G, st, init.value, nbody, step.value, cond.value);
      }
    }
  }

  lemma {:induction false} ListWithLast(p: Option<NetProc>, a: NetProc)
    ensures var list := (if p.None? then [] else [p.value]) + [a];
            && ListTargets(list) == OptTargets(p) + Targets(a)
            && ListSources(list) == OptSources(p) + Sources(a)
  {
    if p.None? {
      assert [] + [a] == [a];
      ListOfOne(a);
    } else {
      assert [p.value] + [a] == [p.value, a];
      ListOfTwo(p.value, a);
    }
  }

  lemma {:induction false} RepeatFresh(G: Elab, st: Statement, d: Des)
    requires st.PRepeat?
    ensures CodeOwns(Lower(G, st, d).0, d.locals, Lower(G, st, d).1.locals)
    decreases st, 0
  {
    ElabReadsNothing(G, st.expr, d);
    var (count, d1) := ElabExpr(G, st.expr, d);
    NetsFresh(G, st.stat, d1);
    NoopNets();
    if count.Some? && Lower(G, st.stat, d1).0.Some? {
      RepeatNets(count.value, G.signed(st.expr), Lower(G, st.stat, d1).0.value);
    }
  }

  lemma NeverNets()
    ensures var p := NetEvWait([], None); Targets(p) == multiset{} && Sources(p) == {}
  {
    var none: Option<NetProc> := None;
    assert OptTargets(none) == multiset{} && OptSources(none) == {};
  }

  lemma {:induction false} ProbedNets(c: NetExpr, probes: seq<Event>, enet: NetProc)
    requires ReadNets(c) == {}
    ensures var p := NetBlock(false, [NetWhile(c, Some(NetEvWait(probes, None))), enet]);
            Targets(p) == Targets(enet) && Sources(p) == Sources(enet)
  {
    ProbeLoopNets(c, probes);
    ListOfTwo(NetWhile(c, Some(NetEvWait(probes, None))), enet);
  }

  /** A wait has the nets of its statement, if any. */
  lemma {:induction false} WaitNets(G: Elab, e: PExpr, enet: NetProc, d: Des)
    requires LowerWait(G, e, enet, d).0.Some?
    ensures var p := LowerWait(G, e, enet, d).0.value;
            || (Targets(p) == Targets(enet) && Sources(p) == Sources(enet))
            || (Targets(p) == multiset{} && Sources(p) == {})
  {
    if G.fold(e).Some? {
      NeverNets();
    } else {
      var cond := NetNotOne(if G.width(e) > 1 then NetOrReduce(NetDyn(e)) else NetDyn(e));
      assert ReadNets(NetDyn(e)) == {};
      ProbedNets(cond, [Probes(G.inputs(e))], enet);
    }
  }

  lemma {:induction false} WaitFresh(G: Elab, st: Statement, d: Des)
    requires st.PWait?
    ensures CodeOwns(Lower(G, st, d).0, d.locals, Lower(G, st, d).1.locals)
    decreases st, 0
  {
    var (net, d1) := LowerOpt(G, st.stat_, d);
    OptFresh(G, st.stat_, d);
    NoopNets();
    if !(st.stat_.Some? && net.None?) {
      var enet := if st.stat_.None? then NOOP else net.value;
      assert Targets(enet) == OptTargets(net) && Sources(enet) == OptSources(net);
      if LowerWait(G, st.cond, enet, d1).0.Some? {
        WaitNets(G, st.cond, enet, d1);
      }
    }
  }

  lemma {:induction false} OptFresh(G: Elab, st: Option<Statement>, d: Des)
    ensures CodeOwns(LowerOpt(G, st, d).0, d.locals, LowerOpt(G, st, d).1.locals)
    decreases st, 2
  {
    if st.Some? {
      NetsFresh(G, st.value, d);
    }
  }

  lemma {:induction false} ListFresh(G: Elab, list: seq<Statement>, d: Des)
    ensures var (nets, d') := LowerList(G, list, d); Owns(ListTargets(nets), ListSources(nets), d.locals, d'.locals)
    decreases list, 0
  {
    if list != [] {
      var (p, d1) := Lower(G, list[0], d);
      var (rest, d2) := LowerList(G, list[1..], d1);
      NetsFresh(G, list[0], d);
      ListFresh(G, list[1..], d1);
      OwnsJoin(OptTargets(p), OptSources(p), d.locals, d1.locals, ListTargets(rest), ListSources(rest), d2.locals);
      if p.None? || EmptyBlock(p.value) {
        assert [] + rest == rest;
      } else {
        assert ([p.value] + rest)[1..] == rest;
      }
    }
  }

  lemma {:induction false} ItemTargetsAppend(a: seq<NetItem>, b: seq<NetItem>)
    ensures ItemTargets(a + b) == ItemTargets(a) + ItemTargets(b)
    ensures ItemSources(a + b) == ItemSources(a) + ItemSources(b)
  {
    if a == [] {
      assert a + b == b;
    } else {
      assert (a + b)[0] == a[0] && (a + b)[1..] == a[1..] + b;
      ItemTargetsAppend(a[1..], b);
    }
  }

  lemma {:induction false} ItemsFresh(G: Elab, items: seq<CaseItem>, d: Des)
    ensures var (nets, d') := LowerItems(G, items, d); Owns(ItemTargets(nets), ItemSources(nets), d.locals, d'.locals)
    decreases items, 0
  {
    if items != [] {
      var (first, d1) := LowerItem(G, items[0], items[0].guards, d);
      var (rest, d2) := LowerItems(G, items[1..], d1);
      ItemFresh(G, items[0], items[0].guards, d);
      ItemsFresh(G, items[1..], d1);
      OwnsJoin(ItemTargets(first), ItemSources(first), d.locals, d1.locals,
               ItemTargets(rest), ItemSources(rest), d2.locals);
      ItemTargetsAppend(first, rest);
    }
  }

  lemma ItemOfOne(item: NetItem)
    ensures ItemTargets([item]) == OptTargets(item.stat)
    ensures (item.guard.Some? ==> ReadNets(item.guard.value) == {}) ==>
              ItemSources([item]) == OptSources(item.stat)
  {
    assert [item][1..] == [];
  }

  lemma {:induction false} ItemFresh(G: Elab, item: CaseItem, guards: seq<PExpr>, d: Des)
    ensures var (nets, d') := LowerItem(G, item, guards, d);
            Owns(ItemTargets(nets), ItemSources(nets), d.locals, d'.locals)
    decreases item, 3, |guards|
  {
    if item.guards == [] {
      OptFresh(G, item.stat, d);
      ItemOfOne(NetItem(None, LowerOpt(G, item.stat, d).0));
    } else if guards != [] {
      ElabReadsNothing(G, guards[0], d);
      var (gu, d1) := ElabExpr(G, guards[0], d);
      var (st, d2) := LowerOpt(G, item.stat, d1);
      var (rest, d3) := LowerItem(G, item, guards[1..], d2);
      OptFresh(G, item.stat, d1);
      ItemFresh(G, item, guards[1..], d2);
      OwnsJoin(OptTargets(st), OptSources(st), d.locals, d2.locals, ItemTargets(rest), ItemSources(rest), d3.locals);
      ItemOfOne(NetItem(gu, st));
      ItemTargetsAppend([NetItem(gu, st)], rest);
    }
  }

  /** Statements that are elaborated one after the other, as processes are, share no local
      net, neither written nor read. */
  lemma NetsApart(G: Elab, st1: Statement, st2: Statement, d: Des)
    ensures var (p1, d1) := Lower(G, st1, d);
            var (p2, d2) := Lower(G, st2, d1);
            && OptTargets(p1) !! OptTargets(p2)
            && (forall k <- OptSources(p1) :: k !in OptTargets(p2))
            && (forall k <- OptSources(p2) :: k !in OptTargets(p1))
  {
    NetsFresh(G, st1, d);
    NetsFresh(G, st2, Lower(G, st1, d).1);
  }

  /** A delayed or event-controlled assignment that elaborates keeps its value in the net
      of the counter, and moves the counter on. */
  lemma TemporaryTaken(G: Elab, x: string, e: PExpr, control: Control, d: Des)
    requires !control.Plain? && Lower(G, PAssign(x, e, control), d).1.errors == d.errors
    ensures var (p, d') := Lower(G, PAssign(x, e, control), d);
            OptTargets(p) == multiset{d.locals} && OptSources(p) == {d.locals} && d'.locals == d.locals + 1
  {
    var st, w := PAssign(x, e, control), SigWidth(G, x);
    var sized := G.sized(e, w);
    var ne := ElabExpr(G, sized, d).0.value;
    var a1, a2 := NetAssign(Local(d.locals, w), Pad(G, sized, ne, w)), NetAssign(Sig(x, w), NetLocal(d.locals));
    match control
    case Delayed(delay) => DelayedNets(G, st, d, a1, a2);
    case AtEvent(evs) => WaitedNets(G, st, d, a1, a2);
    case AtEvents(n, evs) => RepeatedNets(G, st, d, a1, a2);
  }

  // What running code does to the nets of other code.

  predicate SameNet(a: NetStore, b: NetStore, k: nat) {
    (k in a.locals <==> k in b.locals) && (k in a.locals ==> a.locals[k] == b.locals[k])
  }

  predicate Spares(r: NetOutcome, ns: NetStore, k: nat) {
    r.NetDone? ==> SameNet(r.store, ns, k)
  }

  /** Running code leaves every local net alone that it does not assign. */
  lemma {:induction false} RunSpares(W: World, p: NetProc, ns: NetStore, t: nat, k: nat)
    requires t <= W.last && k !in Targets(p)
    ensures Spares(NetRun(W, p, ns, t), ns, k)
    decreases W.last - t, p, 2, 0
  {
    match p
    case NetAssign(_, _) =>
    case NetBlock(_, list) => ListSpares(W, list, ns, t, k);
    case NetCase(kind, e, items) =>
      var chosen := NetSelect(W, kind, NetEval(W.I, e, ns), items, None, ns);
      if chosen.Some? {
        var i :| 0 <= i < |items| && items[i].stat == chosen;
        ItemInTargets(items, i, k);
        RunSpares(W, chosen.value, ns, t, k);
      }
    case NetCondit(e, i, el) =>
      OptSpares(W, if NetEval(W.I, e, ns) == [V1] then i else el, ns, t, k);
    case NetWhile(_, _) => WhileSpares(W, p, W.spins, ns, t, k);
    case NetRepeat(e, signed, body) =>
      RepeatSpares(W, body, RepeatCount(NetEval(W.I, e, ns), signed), ns, t, k);
    case NetForever(_) => ForeverSpares(W, p, W.spins, ns, t, k);
    case NetPDelay(d, stat) =>
      var o := AwaitTime(W, W.clock(t) + W.ticks(NetEval(W.I, d, ns)), ns.sigs, t);
      if o.Done? {
        OptSpares(W, stat, ns.(sigs := o.store), o.at, k);
      }
    case NetEvWait(evs, stat) =>
      var o := AwaitEvent(W, evs, ns.sigs, t);
      if o.Done? {
        OptSpares(W, stat, ns.(sigs := o.store), o.at, k);
      }
  }

  lemma {:induction false} ItemInTargets(items: seq<NetItem>, i: nat, k: nat)
    requires i < |items| && k !in ItemTargets(items)
    ensures k !in OptTargets(items[i].stat)
  {
    if i > 0 {
      ItemInTargets(items[1..], i - 1, k);
    }
  }

  lemma {:induction false} OptSpares(W: World, p: Option<NetProc>, ns: NetStore, t: nat, k: nat)
    requires t <= W.last && k !in OptTargets(p)
    ensures Spares(NetRunOpt(W, p, ns, t), ns, k)
    decreases W.last - t, p, 3, 0
  {
    if p.Some? {
      RunSpares(W, p.value, ns, t, k);
    }
  }

  lemma {:induction false} ListSpares(W: World, list: seq<NetProc>, ns: NetStore, t: nat, k: nat)
    requires t <= W.last && k !in ListTargets(list)
    ensures Spares(NetRunList(W, list, ns, t), ns, k)
    decreases W.last - t, list, 0, 0
  {
    if list != [] {
      RunSpares(W, list[0], ns, t, k);
      var r := NetRun(W, list[0], ns, t);
      if r.NetDone? {
        ListSpares(W, list[1..], r.store, r.at, k);
      }
    }
  }

  lemma {:induction false} WhileSpares(W: World, p: NetProc, spins: nat, ns: NetStore, t: nat, k: nat)
    requires p.NetWhile? && t <= W.last && k !in Targets(p)
    ensures Spares(NetRunWhile(W, p, spins, ns, t), ns, k)
    decreases W.last - t, p, 1, spins
  {
    OptSpares(W, p.body, ns, t, k);
    var r := NetRunOpt(W, p.body, ns, t);
    if r.NetDone? {
      if r.at > t {
        WhileSpares(W, p, W.spins, r.store, r.at, k);
      } else if spins > 0 {
        WhileSpares(W, p, spins - 1, r.store, r.at, k);
      }
    }
  }

  lemma {:induction false} ForeverSpares(W: World, p: NetProc, spins: nat, ns: NetStore, t: nat, k: nat)
    requires p.NetForever? && t <= W.last && k !in Targets(p)
    ensures Spares(NetRunForever(W, p, spins, ns, t), ns, k)
    decreases W.last - t, p, 1, spins
  {
    RunSpares(W, p.stat, ns, t, k);
    var r := NetRun(W, p.stat, ns, t);
    if r.NetDone? {
      if r.at > t {
        ForeverSpares(W, p, W.spins, r.store, r.at, k);
      } else if spins > 0 {
        ForeverSpares(W, p, spins - 1, r.store, r.at, k);
      }
    }
  }

  lemma {:induction false} RepeatSpares(W: World, body: NetProc, n: nat, ns: NetStore, t: nat, k: nat)
    requires t <= W.last && k !in Targets(body)
    ensures Spares(NetRunRepeat(W, body, n, ns, t), ns, k)
    decreases W.last - t, body, 3, n
  {
    if n > 0 {
      RunSpares(W, body, ns, t, k);
      var r := NetRun(W, body, ns, t);
      if r.NetDone? {
        RepeatSpares(W, body, n - 1, r.store, r.at, k);
      }
    }
  }

  /** A value that one statement keeps in a local net, for a delay or an event, is not
      touched by any run of a statement elaborated later; nor the other way round. */
  lemma ValuesKept(G: Elab, W: World, st1: Statement, st2: Statement, d: Des, ns: NetStore, t: nat)
    requires t <= W.last
    ensures var (p1, d1) := Lower(G, st1, d);
            var p2 := Lower(G, st2, d1).0;
            && (p2.Some? ==> forall k <- OptTargets(p1) :: Spares(NetRun(W, p2.value, ns, t), ns, k))
            && (p1.Some? ==> forall k <- OptTargets(p2) :: Spares(NetRun(W, p1.value, ns, t), ns, k))
  {
    NetsApart(G, st1, st2, d);
    var (p1, d1) := Lower(G, st1, d);
    var p2 := Lower(G, st2, d1).0;
    forall k | k in OptTargets(p1) && p2.Some? ensures Spares(NetRun(W, p2.value, ns, t), ns, k) {
      RunSpares(W, p2.value, ns, t, k);
    }
    forall k | k in OptTargets(p2) && p1.Some? ensures Spares(NetRun(W, p1.value, ns, t), ns, k) {
      RunSpares(W, p1.value, ns, t, k);
    }
  }
}
