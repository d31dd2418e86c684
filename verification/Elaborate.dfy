/** Elaboration of behavioural statements into the netlist (elaborate.cc). */
module Elaborate {
  import opened Verinum
  import opened PExprs
  import opened World
  import opened PForm
  import opened Netlist

  /** The part of the design that elaboration updates: the error count and the
      counter behind fresh local symbols. */
  datatype Des = Des(errors: nat, locals: nat)

  function Fail(d: Des): Des {
    d.(errors := d.errors + 1)
  }

  /** Elaborate an expression and evaluate it if possible. */
  function ElabExpr(G: Elab, e: PExpr, d: Des): (r: (Option<NetExpr>, Des))
    ensures r.1.errors >= d.errors
    ensures r.1.errors == d.errors ==> r.0.Some?
  {
    if !G.known(e) then (None, Fail(d))
    else if G.fold(e).Some? then (Some(NetConst(G.fold(e).value)), d)
    else (Some(NetDyn(e)), d)
  }

  function Reduce(G: Elab, e: PExpr, ne: NetExpr): NetExpr {
    if G.width(e) == 1 then ne else NetNeZero(ne)
  }

  /** Extend an elaborated expression to the width of the l-value. */
  function Pad(G: Elab, e: PExpr, ne: NetExpr, w: nat): NetExpr {
    if w <= G.width(e) then ne
    else if ne.NetConst? then NetConst(Resize(ne.value, w, G.signed(e)))
    else NetPad(ne, w, G.signed(e))
  }

  predicate EmptyBlock(p: NetProc) {
    p.NetBlock? && p.list == []
  }

  const NOOP := NetBlock(false, [])

  /** A branch that is an empty block is removed as a null statement. */
  function DropEmpty(p: Option<NetProc>): Option<NetProc> {
    if p.Some? && EmptyBlock(p.value) then None else p
  }

  predicate EventKnown(G: Elab, ev: Event) {
    match ev
    case Named(_) => true
    case AnyEdge(e) => G.known(e)
    case PosEdge(e) => G.known(e)
    case NegEdge(e) => G.known(e)
    case Probes(xs) => xs <= G.declared.Keys
  }

  /** Event expressions that do not elaborate are reported and skipped. */
  function LowerEvents(G: Elab, evs: seq<Event>, d: Des): (r: (seq<Event>, Des))
    ensures r.1.errors >= d.errors
    ensures r.1.errors == d.errors ==> r.0 == evs
  {
    if evs == [] then ([], d)
    else
      var d1 := if EventKnown(G, evs[0]) then d else Fail(d);
      var (rest, d2) := LowerEvents(G, evs[1..], d1);
      ((if d1 == d then [evs[0]] else []) + rest, d2)
  }

  /** An intra-assignment control stores the value in a fresh local net, blocks, and
      then assigns from the net. A delay that failed is as good as none. */
  function LowerAssign(G: Elab, x: string, e: PExpr, control: Control, d: Des): (r: (Option<NetProc>, Des))
    ensures r.1.errors >= d.errors
    ensures r.1.errors == d.errors ==> r.0.Some?
  {
    if x !in G.declared then (None, Fail(d))
    else
      var (delay, d1) := if control.Delayed? then ElabExpr(G, control.delay, d) else (None, d);
      var wid := SigWidth(G, x);
      var sized := G.sized(e, wid);
      var (ne, d2) := ElabExpr(G, sized, d1);
      if ne.None? then (None, d2)
      else
        var rv := Pad(G, sized, ne.value, wid);
        if control.Plain? || (control.Delayed? && delay.None?) then (Some(NetAssign(Sig(x, wid), rv)), d2)
        else
          var tmp := d2.locals;
          var d3 := d2.(locals := tmp + 1);
          var a1 := NetAssign(Local(tmp, wid), rv);
          var a2 := NetAssign(Sig(x, wid), NetLocal(tmp));
          match control
          case Delayed(_) =>
            (Some(NetBlock(false, [a1, NetPDelay(delay.value, Some(a2))])), d3)
          case AtEvent(evs) =>
            var (nevs, d4) := LowerEvents(G, evs, d3);
            (Some(NetBlock(false, [a1, NetEvWait(nevs, Some(a2))])), d4)
          case AtEvents(n, evs) =>
            var (count, d4) := ElabExpr(G, n, d3);
            if count.None? then (None, d4)
            else
              var (nevs, d5) := LowerEvents(G, evs, d4);
              var wait := NetEvWait(nevs, Some(NOOP));
              (Some(NetBlock(false, [a1] + LowerRepeated(G, n, count.value, wait) + [a2])), d5)
  }

  /** Constant repetition counts of at most 0 and of 1 need no repeat statement. */
  function LowerRepeated(G: Elab, n: PExpr, count: NetExpr, st: NetProc): seq<NetProc> {
    if count.NetConst? && AsLong(count.value, G.signed(n)) <= 0 then []
    else if count.NetConst? && AsLong(count.value, G.signed(n)) == 1 then [st]
    else [NetRepeat(count, G.signed(n), st)]
  }

  /** `wait (e) st` becomes a loop around an event wait on the inputs of e. A constant
      condition leaves only the statement, or blocks for ever. */
  function LowerWait(G: Elab, e: PExpr, enet: NetProc, d: Des): (r: (Option<NetProc>, Des))
    ensures r.1.errors >= d.errors
    ensures r.1.errors == d.errors ==> r.0.Some?
  {
    if !G.known(e) then (None, Fail(d))
    else if G.fold(e).Some? then
      if Truth(G.fold(e).value) then (Some(enet), d)
      else (Some(NetEvWait([], None)), d)
    else if G.inputs(e) == {} then (None, Fail(d))
    else
      var cond := if G.width(e) > 1 then NetOrReduce(NetDyn(e)) else NetDyn(e);
      var loop := NetWhile(NetNotOne(cond), Some(NetEvWait([Probes(G.inputs(e))], None)));
      (Some(NetBlock(false, [loop, enet])), d)
  }

  function Lower(G: Elab, st: Statement, d: Des): (r: (Option<NetProc>, Des))
    ensures r.1.errors >= d.errors
    ensures r.1.errors == d.errors ==> r.0.Some?
    decreases st
  {
    match st
    case PAssign(x, e, control) => LowerAssign(G, x, e, control, d)
    case PBlock(name, list) =>
      if |list| == 1 && name.None? then Lower(G, list[0], d)
      else
        var (nets, d1) := LowerList(G, list, d);
        (Some(NetBlock(name.Some?, nets)), d1)
    case PCase(kind, e, items) =>
      var (ne, d1) := ElabExpr(G, e, d);
      if ne.None? then (None, d1)
      else
        var (nitems, d2) := LowerItems(G, items, d1);
        (Some(NetCase(kind, ne.value, nitems)), d2)
    case PCondit(e, if_, else_) =>
      var (ne, d1) := ElabExpr(G, e, d);
      if ne.None? then (None, d1)
      else if ne.value.NetConst? then
        var branch := if Truth(ne.value.value) then if_ else else_;
        if branch.None? then (Some(NOOP), d1) else Lower(G, branch.value, d1)
      else
        var (i, d2) := LowerOpt(G, if_, d1);
        var (el, d3) := LowerOpt(G, else_, d2);
        (Some(NetCondit(Reduce(G, e, ne.value), DropEmpty(i), DropEmpty(el))), d3)
    case PFor(x1, e1, c, x2, e2, body) =>
      if x1 !in G.declared then (None, Fail(d))
      else
        var w1 := SigWidth(G, x1);
        var sized1 := G.sized(e1, w1);
        var (init, d1) := ElabExpr(G, sized1, d);
        if init.None? then (None, d1)
        else
          var (nbody, d2) := Lower(G, body, d1);
          var list := if nbody.None? then [] else [nbody.value];
          if x2 !in G.declared then (Some(NetBlock(false, list)), Fail(d2))
          else
            var w2 := SigWidth(G, x2);
            var (step, d3) := ElabExpr(G, G.sized(e2, w2), d2);
            if step.None? then (None, d3)
            else
              var (cond, d4) := ElabExpr(G, c, d3);
              if cond.None? then (None, d4)
              else
                var start := NetAssign(Sig(x1, w1), Pad(G, sized1, init.value, w1));
                var loop := NetWhile(cond.value, Some(NetBlock(false, list + [NetAssign(Sig(x2, w2), step.value)])));
                (Some(NetBlock(false, [start, loop])), d4)
    case PWhile(c, body) =>
      var (cond, d1) := ElabExpr(G, c, d);
      var (nbody, d2) := Lower(G, body, d1);
      if cond.None? then (None, d2) else (Some(NetWhile(cond.value, nbody)), d2)
    case PRepeat(e, body) =>
      var (count, d1) := ElabExpr(G, e, d);
      if count.None? then (None, d1)
      else
        var (nbody, d2) := Lower(G, body, d1);
        if nbody.None? then (None, d2)
        else
          var nets := LowerRepeated(G, e, count.value, nbody.value);
          (Some(if nets == [] then NOOP else nets[0]), d2)
    case PForever(body) =>
      var (nbody, d1) := Lower(G, body, d);
      if nbody.None? then (None, d1) else (Some(NetForever(nbody.value)), d1)
    case PDelay(e, stat) =>
      var (ne, d1) := ElabExpr(G, e, d);
      var (nst, d2) := LowerOpt(G, stat, d1);
      if ne.None? then (None, d2) else (Some(NetPDelay(ne.value, nst)), d2)
    case PEvent(evs, stat) =>
      var (enet, d1) := LowerOpt(G, stat, d);
      if stat.Some? && enet.None? then (None, d1)
      else
        var (nevs, d2) := LowerEvents(G, evs, d1);
        (Some(NetEvWait(nevs, if stat.None? then Some(NOOP) else enet)), d2)
    case PWait(e, stat) =>
      var (enet, d1) := LowerOpt(G, stat, d);
      if stat.Some? && enet.None? then (None, d1)
      else LowerWait(G, e, if stat.None? then NOOP else enet.value, d1)
  }

  function LowerOpt(G: Elab, st: Option<Statement>, d: Des): (r: (Option<NetProc>, Des))
    ensures r.1.errors >= d.errors
    ensures r.1.errors == d.errors ==> r.0.Some? == st.Some?
    decreases st
  {
    if st.None? then (None, d) else Lower(G, st.value, d)
  }

  /** Statements that fail are skipped, and so are empty blocks. */
  function LowerList(G: Elab, list: seq<Statement>, d: Des): (r: (seq<NetProc>, Des))
    ensures r.1.errors >= d.errors
    decreases list
  {
    if list == [] then ([], d)
    else
      var (p, d1) := Lower(G, list[0], d);
      var (rest, d2) := LowerList(G, list[1..], d1);
      ((if p.None? || EmptyBlock(p.value) then [] else [p.value]) + rest, d2)
  }

  /** Every guard of an item becomes an item of its own, with the statement
      elaborated again. */
  function LowerItems(G: Elab, items: seq<CaseItem>, d: Des): (r: (seq<NetItem>, Des))
    ensures r.1.errors >= d.errors
    decreases items
  {
    if items == [] then ([], d)
    else
      var (first, d1) := LowerItem(G, items[0], items[0].guards, d);
      var (rest, d2) := LowerItems(G, items[1..], d1);
      (first + rest, d2)
  }

  function LowerItem(G: Elab, item: CaseItem, guards: seq<PExpr>, d: Des): (r: (seq<NetItem>, Des))
    ensures r.1.errors >= d.errors
    decreases item, |guards|
  {
    if item.guards == [] then
      var (st, d1) := LowerOpt(G, item.stat, d);
      ([NetItem(None, st)], d1)
    else if guards == [] then ([], d)
    else
      var (gu, d1) := ElabExpr(G, guards[0], d);
      var (st, d2) := LowerOpt(G, item.stat, d1);
      var (rest, d3) := LowerItem(G, item, guards[1..], d2);
      ([NetItem(gu, st)] + rest, d3)
  }
}
