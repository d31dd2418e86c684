/** The behavioural netlist: the statements elaboration produces and their meaning.
    Local nets are the temporaries elaboration invents; no other process names them. */
module Netlist {
  import opened Verinum
  import opened PExprs
  import opened World

  datatype NetExpr =
    | NetConst(value: Bits)
    | NetDyn(expr: PExpr)
    | NetLocal(net: nat)
    | NetNeZero(arg: NetExpr)        // arg != 0
    | NetOrReduce(arg: NetExpr)      // |arg
    | NetNotOne(arg: NetExpr)        // 1 !== arg
    | NetPad(arg: NetExpr, width: nat, signed: bool)

  /** L-values know their widths. */
  datatype Target = Sig(name: string, width: nat) | Local(net: nat, width: nat)

  datatype NetProc =
    | NetAssign(lval: Target, rval: NetExpr)
    | NetBlock(named: bool, list: seq<NetProc>)
    | NetCase(kind: CaseKind, expr: NetExpr, items: seq<NetItem>)
    | NetCondit(expr: NetExpr, if_: Option<NetProc>, else_: Option<NetProc>)
    | NetWhile(cond: NetExpr, body: Option<NetProc>)
    | NetRepeat(count: NetExpr, signed: bool, stat: NetProc)
    | NetForever(stat: NetProc)
    | NetPDelay(delay: NetExpr, stat_: Option<NetProc>)
    | NetEvWait(events: seq<Event>, stat_: Option<NetProc>)

  /** A case of a `NetCase`; no guard makes it the default. */
  datatype NetItem = NetItem(guard: Option<NetExpr>, stat: Option<NetProc>)

  datatype NetStore = NetStore(sigs: Store, locals: map<nat, Bits>)

  datatype NetOutcome = NetDone(store: NetStore, at: nat) | NetCut

  function NetEval(I: Interp<Bits>, e: NetExpr, ns: NetStore): Bits {
    match e
    case NetConst(v) => v
    case NetDyn(pe) => Eval(I, pe, ns.sigs)
    case NetLocal(k) => if k in ns.locals then ns.locals[k] else I.undef
    case NetNeZero(a) => NeZero(NetEval(I, a, ns))
    case NetOrReduce(a) => NeZero(NetEval(I, a, ns))
    case NetNotOne(a) => if NetEval(I, a, ns) == [V1] then [V0] else [V1]
    case NetPad(a, w, signed) => Resize(NetEval(I, a, ns), w, signed)
  }

  /** An assignment drops the bits the l-value has no place for, and nothing extends
      the value when there are too few. */
  function Trim(v: Bits, w: nat): Bits {
    if |v| > w then v[..w] else v
  }

  function NetStoreTo(ns: NetStore, x: Target, v: Bits): NetStore {
    match x
    case Sig(n, w) => ns.(sigs := ns.sigs[n := Trim(v, w)])
    case Local(k, w) => ns.(locals := ns.locals[k := Trim(v, w)])
  }

  /** Blocking changes the signals only. */
  function Resume(ns: NetStore, o: Outcome): NetOutcome {
    match o
    case Cut => NetCut
    case Done(s, t) => NetDone(ns.(sigs := s), t)
  }

  /** The code a case branches to: all guards are tried in order, and the last
      default is taken when none matches. */
  function NetSelect(W: World, kind: CaseKind, v: Bits, items: seq<NetItem>, default: Option<NetProc>, ns: NetStore)
    : (r: Option<NetProc>)
    ensures r.None? || r == default || exists i :: 0 <= i < |items| && items[i].stat == r
  {
    if items == [] then default
    else if items[0].guard.None? then
      NetSelect(W, kind, v, items[1..], items[0].stat, ns)
    else if W.caseEq(kind, v, NetEval(W.I, items[0].guard.value, ns)) then items[0].stat
    else NetSelect(W, kind, v, items[1..], default, ns)
  }

  function NetRun(W: World, p: NetProc, ns: NetStore, t: nat): (r: NetOutcome)
    requires t <= W.last
    ensures r.NetDone? ==> t <= r.at <= W.last
    decreases W.last - t, p, 2, 0
  {
    match p
    case NetAssign(x, e) => NetDone(NetStoreTo(ns, x, NetEval(W.I, e, ns)), t)
    case NetBlock(_, list) => NetRunList(W, list, ns, t)
    case NetCase(kind, e, items) =>
      var chosen := NetSelect(W, kind, NetEval(W.I, e, ns), items, None, ns);
      if chosen.None? then NetDone(ns, t)
      else
        assert exists i :: 0 <= i < |items| && items[i].stat == chosen;
        NetRun(W, chosen.value, ns, t)
    case NetCondit(e, if_, else_) =>
      NetRunOpt(W, if NetEval(W.I, e, ns) == [V1] then if_ else else_, ns, t)
    case NetWhile(_, _) => NetRunWhile(W, p, W.spins, ns, t)
    case NetRepeat(e, signed, body) =>
      NetRunRepeat(W, body, RepeatCount(NetEval(W.I, e, ns), signed), ns, t)
    case NetForever(_) => NetRunForever(W, p, W.spins, ns, t)
    case NetPDelay(d, stat) =>
      var resumed := Resume(ns, AwaitTime(W, W.clock(t) + W.ticks(NetEval(W.I, d, ns)), ns.sigs, t));
      if resumed.NetCut? then NetCut else NetRunOpt(W, stat, resumed.store, resumed.at)
    case NetEvWait(evs, stat) =>
      var resumed := Resume(ns, AwaitEvent(W, evs, ns.sigs, t));
      if resumed.NetCut? then NetCut else NetRunOpt(W, stat, resumed.store, resumed.at)
  }

  function NetRunOpt(W: World, p: Option<NetProc>, ns: NetStore, t: nat): (r: NetOutcome)
    requires t <= W.last
    ensures r.NetDone? ==> t <= r.at <= W.last
    decreases W.last - t, p, 3, 0
  {
    if p.None? then NetDone(ns, t) else NetRun(W, p.value, ns, t)
  }

  function NetRunList(W: World, list: seq<NetProc>, ns: NetStore, t: nat): (r: NetOutcome)
    requires t <= W.last
    ensures r.NetDone? ==> t <= r.at <= W.last
    decreases W.last - t, list, 0, 0
  {
    if list == [] then NetDone(ns, t)
    else
      match NetRun(W, list[0], ns, t)
      case NetCut => NetCut
      case NetDone(ns', t') => NetRunList(W, list[1..], ns', t')
  }

  /** A while condition of several bits is or-reduced at run time. */
  function NetRunWhile(W: World, p: NetProc, spins: nat, ns: NetStore, t: nat): (r: NetOutcome)
    requires p.NetWhile? && t <= W.last
    ensures r.NetDone? ==> t <= r.at <= W.last
    decreases W.last - t, p, 1, spins
  {
    if !Truth(NetEval(W.I, p.cond, ns)) then NetDone(ns, t)
    else
      match NetRunOpt(W, p.body, ns, t)
      case NetCut => NetCut
      case NetDone(ns', t') =>
        if t' > t then NetRunWhile(W, p, W.spins, ns', t')
        else if spins == 0 then NetCut
        else NetRunWhile(W, p, spins - 1, ns', t')
  }

  function NetRunForever(W: World, p: NetProc, spins: nat, ns: NetStore, t: nat): (r: NetOutcome)
    requires p.NetForever? && t <= W.last
    ensures r.NetDone? ==> t <= r.at <= W.last
    decreases W.last - t, p, 1, spins
  {
    match NetRun(W, p.stat, ns, t)
    case NetCut => NetCut
    case NetDone(ns', t') =>
      if t' > t then NetRunForever(W, p, W.spins, ns', t')
      else if spins == 0 then NetCut
      else NetRunForever(W, p, spins - 1, ns', t')
  }

  function NetRunRepeat(W: World, body: NetProc, n: nat, ns: NetStore, t: nat): (r: NetOutcome)
    requires t <= W.last
    ensures r.NetDone? ==> t <= r.at <= W.last
    decreases W.last - t, body, 3, n
  {
    if n == 0 then NetDone(ns, t)
    else
      match NetRun(W, body, ns, t)
      case NetCut => NetCut
      case NetDone(ns', t') => NetRunRepeat(W, body, n - 1, ns', t')
  }
}
