/** Parsed behavioural statements and their meaning, following sections 9.2 to 9.8
    of IEEE 1364-2005; what an assignment stores follows sections 5.4 and 5.5. */
module PForm {
  import opened Verinum
  import opened PExprs
  import opened World

  datatype Statement =
    | PAssign(lval: string, rval: PExpr, control: Control)
    | PBlock(name: Option<string>, list: seq<Statement>)
    | PCase(kind: CaseKind, expr: PExpr, items: seq<CaseItem>)
    | PCondit(expr: PExpr, if_: Option<Statement>, else_: Option<Statement>)
    | PFor(name1: string, expr1: PExpr, cond: PExpr, name2: string, expr2: PExpr, stat: Statement)
    | PWhile(cond: PExpr, stat: Statement)
    | PRepeat(expr: PExpr, stat: Statement)
    | PForever(stat: Statement)
    | PDelay(delay: PExpr, stat_: Option<Statement>)
    | PEvent(events: seq<Event>, stat_: Option<Statement>)
    | PWait(cond: PExpr, stat_: Option<Statement>)

  /** The intra-assignment timing control of an assignment. */
  datatype Control =
    | Plain
    | Delayed(delay: PExpr)
    | AtEvent(events: seq<Event>)
    | AtEvents(count: PExpr, events: seq<Event>)

  /** An item without guards is the default. */
  datatype CaseItem = CaseItem(guards: seq<PExpr>, stat: Option<Statement>)

  predicate AnyGuard(W: World, kind: CaseKind, v: Bits, guards: seq<PExpr>, s: Store) {
    exists i | 0 <= i < |guards| :: W.caseEq(kind, v, Eval(W.I, guards[i], s))
  }

  /** The statement a case selects: that of the first item with a matching guard,
      else the default, wherever it stands among the items. */
  function Select(W: World, kind: CaseKind, v: Bits, items: seq<CaseItem>, default: Option<Statement>, s: Store)
    : (r: Option<Statement>)
    ensures r.None? || r == default || exists i :: 0 <= i < |items| && items[i].stat == r
  {
    if items == [] then default
    else if items[0].guards == [] then
      Select(W, kind, v, items[1..], items[0].stat, s)
    else if AnyGuard(W, kind, v, items[0].guards, s) then items[0].stat
    else Select(W, kind, v, items[1..], default, s)
  }

  /** Running a statement from a store at an instant. */
  function Run(G: Elab, W: World, st: Statement, s: Store, t: nat): (r: Outcome)
    requires t <= W.last
    ensures r.Done? ==> t <= r.at <= W.last
    decreases W.last - t, st, 2, 0
  {
    match st
    case PAssign(x, e, control) =>
      var v := Stored(G, W.I, x, e, s);
      var resumed := Block(G, W, control, s, t);
      if resumed.Cut? then Cut else Done(resumed.store[x := v], resumed.at)
    case PBlock(_, list) => RunList(G, W, list, s, t)
    case PCase(kind, e, items) =>
      var chosen := Select(W, kind, Eval(W.I, e, s), items, None, s);
      if chosen.None? then Done(s, t)
      else
        assert exists i :: 0 <= i < |items| && items[i].stat == chosen;
        Run(G, W, chosen.value, s, t)
    case PCondit(e, if_, else_) =>
      RunOpt(G, W, if Truth(Eval(W.I, e, s)) then if_ else else_, s, t)
    case PFor(x, e, _, _, _, _) => RunFor(G, W, st, W.spins, s[x := Stored(G, W.I, x, e, s)], t)
    case PWhile(_, _) => RunWhile(G, W, st, W.spins, s, t)
    case PRepeat(e, body) =>
      RunRepeat(G, W, body, RepeatCount(Eval(W.I, e, s), G.signed(e)), s, t)
    case PForever(_) => RunForever(G, W, st, W.spins, s, t)
    case PDelay(d, stat) =>
      var resumed := AwaitTime(W, W.clock(t) + W.ticks(Eval(W.I, d, s)), s, t);
      if resumed.Cut? then Cut else RunOpt(G, W, stat, resumed.store, resumed.at)
    case PEvent(evs, stat) =>
      var resumed := AwaitEvent(W, evs, s, t);
      if resumed.Cut? then Cut else RunOpt(G, W, stat, resumed.store, resumed.at)
    case PWait(e, stat) =>
      var resumed := AwaitTrue(W, e, s, t);
      if resumed.Cut? then Cut else RunOpt(G, W, stat, resumed.store, resumed.at)
  }

  /** The blocking between the evaluation of the right-hand side and the store. */
  function Block(G: Elab, W: World, control: Control, s: Store, t: nat): (r: Outcome)
    requires t <= W.last
    ensures r.Done? ==> t <= r.at <= W.last
  {
    match control
    case Plain => Done(s, t)
    case Delayed(d) => AwaitTime(W, W.clock(t) + W.ticks(Eval(W.I, d, s)), s, t)
    case AtEvent(evs) => AwaitEvent(W, evs, s, t)
    case AtEvents(n, evs) => AwaitEvents(W, evs, RepeatCount(Eval(W.I, n, s), G.signed(n)), s, t)
  }

  function RunOpt(G: Elab, W: World, st: Option<Statement>, s: Store, t: nat): (r: Outcome)
    requires t <= W.last
    ensures r.Done? ==> t <= r.at <= W.last
    decreases W.last - t, st, 3, 0
  {
    if st.None? then Done(s, t) else Run(G, W, st.value, s, t)
  }

  function RunList(G: Elab, W: World, list: seq<Statement>, s: Store, t: nat): (r: Outcome)
    requires t <= W.last
    ensures r.Done? ==> t <= r.at <= W.last
    decreases W.last - t, list, 0, 0
  {
    if list == [] then Done(s, t)
    else
      match Run(G, W, list[0], s, t)
      case Cut => Cut
      case Done(s', t') => RunList(G, W, list[1..], s', t')
  }

  /** The rounds of a while loop; `spins` counts rounds in which no time passes. */
  function RunWhile(G: Elab, W: World, st: Statement, spins: nat, s: Store, t: nat): (r: Outcome)
    requires st.PWhile? && t <= W.last
    ensures r.Done? ==> t <= r.at <= W.last
    decreases W.last - t, st, 1, spins
  {
    if !Truth(Eval(W.I, st.cond, s)) then Done(s, t)
    else
      match Run(G, W, st.stat, s, t)
      case Cut => Cut
      case Done(s', t') =>
        if t' > t then RunWhile(G, W, st, W.spins, s', t')
        else if spins == 0 then Cut
        else RunWhile(G, W, st, spins - 1, s', t')
  }

  function RunFor(G: Elab, W: World, st: Statement, spins: nat, s: Store, t: nat): (r: Outcome)
    requires st.PFor? && t <= W.last
    ensures r.Done? ==> t <= r.at <= W.last
    decreases W.last - t, st, 1, spins
  {
    if !Truth(Eval(W.I, st.cond, s)) then Done(s, t)
    else
      match Run(G, W, st.stat, s, t)
      case Cut => Cut
      case Done(s0, t') =>
        var s' := s0[st.name2 := Stored(G, W.I, st.name2, st.expr2, s0)];
        if t' > t then RunFor(G, W, st, W.spins, s', t')
        else if spins == 0 then Cut
        else RunFor(G, W, st, spins - 1, s', t')
  }

  function RunForever(G: Elab, W: World, st: Statement, spins: nat, s: Store, t: nat): (r: Outcome)
    requires st.PForever? && t <= W.last
    ensures r.Done? ==> t <= r.at <= W.last
    decreases W.last - t, st, 1, spins
  {
    match Run(G, W, st.stat, s, t)
    case Cut => Cut
    case Done(s', t') =>
      if t' > t then RunForever(G, W, st, W.spins, s', t')
      else if spins == 0 then Cut
      else RunForever(G, W, st, spins - 1, s', t')
  }

  function RunRepeat(G: Elab, W: World, body: Statement, n: nat, s: Store, t: nat): (r: Outcome)
    requires t <= W.last
    ensures r.Done? ==> t <= r.at <= W.last
    decreases W.last - t, body, 3, n
  {
    if n == 0 then Done(s, t)
    else
      match Run(G, W, body, s, t)
      case Cut => Cut
      case Done(s', t') => RunRepeat(G, W, body, n - 1, s', t')
  }
}
