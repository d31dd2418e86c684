/** Elaboration as it is carried out: methods that build netlist blocks and case
    tables in loops and update the design's error count and symbol counter. */
module Design {
  import opened Verinum
  import opened PExprs
  import opened World
  import opened PForm
  import opened Netlist
  import opened Elaborate

  /** The number of guard/statement pairs a case statement needs. */
  function ItemCount(items: seq<CaseItem>): nat {
    if items == [] then 0
    else (if items[0].guards == [] then 1 else |items[0].guards|) + ItemCount(items[1..])
  }

  lemma {:induction false} LowerItemLength(G: Elab, item: CaseItem, guards: seq<PExpr>, d: Des)
    ensures |LowerItem(G, item, guards, d).0| == if item.guards == [] then 1 else |guards|
    decreases |guards|
  {
    if item.guards != [] && guards != [] {
      LowerItemLength(G, item, guards[1..], LowerOpt(G, item.stat, ElabExpr(G, guards[0], d).1).1);
    }
  }

  lemma {:induction false} LowerItemsLength(G: Elab, items: seq<CaseItem>, d: Des)
    ensures |LowerItems(G, items, d).0| == ItemCount(items)
    decreases |items|
  {
    if items != [] {
      LowerItemLength(G, items[0], items[0].guards, d);
      LowerItemsLength(G, items[1..], LowerItem(G, items[0], items[0].guards, d).1);
    }
  }

  /** The table holds `done`, and elaborating the items to come completes it. */
  predicate Filled(G: Elab, todo: seq<CaseItem>, d: Des, done: seq<NetItem>, want: (seq<NetItem>, Des)) {
    var (rest, d') := LowerItems(G, todo, d);
    done + rest == want.0 && d' == want.1
  }

  /** The same in the middle of an item, with some of its guards to come. */
  predicate FilledWithin(G: Elab, item: CaseItem, guards: seq<PExpr>, todo: seq<CaseItem>, d: Des,
                         done: seq<NetItem>, want: (seq<NetItem>, Des)) {
    var (first, d') := LowerItem(G, item, guards, d);
    Filled(G, todo, d', done + first, want)
  }

  lemma FilledStep(G: Elab, todo: seq<CaseItem>, d: Des, done: seq<NetItem>, want: (seq<NetItem>, Des))
    requires todo != []
    requires Filled(G, todo, d, done, want)
    ensures FilledWithin(G, todo[0], todo[0].guards, todo[1..], d, done, want)
  {
    var (first, d1) := LowerItem(G, todo[0], todo[0].guards, d);
    var (rest, d2) := LowerItems(G, todo[1..], d1);
    assert done + (first + rest) == (done + first) + rest;
  }

  lemma WithinStep(G: Elab, item: CaseItem, guards: seq<PExpr>, todo: seq<CaseItem>, d: Des,
                   done: seq<NetItem>, want: (seq<NetItem>, Des))
    requires item.guards != [] && guards != []
    requires FilledWithin(G, item, guards, todo, d, done, want)
    ensures var (gu, d1) := ElabExpr(G, guards[0], d);
            var (st, d2) := LowerOpt(G, item.stat, d1);
            |want.0| > |done| && FilledWithin(G, item, guards[1..], todo, d2, done + [NetItem(gu, st)], want)
  {
    var (gu, d1) := ElabExpr(G, guards[0], d);
    var (st, d2) := LowerOpt(G, item.stat, d1);
    var rest := LowerItem(G, item, guards[1..], d2).0;
    assert done + ([NetItem(gu, st)] + rest) == (done + [NetItem(gu, st)]) + rest;
  }

  /** The block holds `cur`, and elaborating the statements to come completes it. */
  predicate Appended(G: Elab, todo: seq<Statement>, d: Des, cur: seq<NetProc>, want: (seq<NetProc>, Des)) {
    var (rest, d') := LowerList(G, todo, d);
    cur + rest == want.0 && d' == want.1
  }

  lemma ListStep(G: Elab, list: seq<Statement>, idx: nat, d: Des, cur: seq<NetProc>, want: (seq<NetProc>, Des))
    requires idx < |list| && Appended(G, list[idx..], d, cur, want)
    ensures var (p, d1) := Lower(G, list[idx], d);
            Appended(G, list[idx + 1..], d1, if p.None? || EmptyBlock(p.value) then cur else cur + [p.value], want)
  {
    assert list[idx..][0] == list[idx] && list[idx..][1..] == list[idx + 1..];
    var (p, d1) := Lower(G, list[idx], d);
    var (rest, d2) := LowerList(G, list[idx + 1..], d1);
    if p.None? || EmptyBlock(p.value) {
      assert [] + rest == rest;
    } else {
      assert cur + ([p.value] + rest) == (cur + [p.value]) + rest;
    }
  }

  /** The wait has the events `wa`, and elaborating those to come completes it. */
  predicate EventsKept(G: Elab, todo: seq<Event>, d: Des, wa: seq<Event>, want: (seq<Event>, Des)) {
    var (rest, d') := LowerEvents(G, todo, d);
    wa + rest == want.0 && d' == want.1
  }

  lemma EventsStep(G: Elab, evs: seq<Event>, idx: nat, d: Des, wa: seq<Event>, want: (seq<Event>, Des))
    requires idx < |evs| && EventsKept(G, evs[idx..], d, wa, want)
    ensures if EventKnown(G, evs[idx]) then EventsKept(G, evs[idx + 1..], d, wa + [evs[idx]], want)
            else EventsKept(G, evs[idx + 1..], Fail(d), wa, want)
  {
    assert evs[idx..][0] == evs[idx] && evs[idx..][1..] == evs[idx + 1..];
    if EventKnown(G, evs[idx]) {
      var rest := LowerEvents(G, evs[idx + 1..], d).0;
      assert wa + ([evs[idx]] + rest) == (wa + [evs[idx]]) + rest;
    } else {
      var rest := LowerEvents(G, evs[idx + 1..], Fail(d)).0;
      assert [] + rest == rest;
    }
  }

  class Design {
    var errors: nat
    var local_symbols: nat

    function State(): Des
      reads this
    {
      Des(errors, local_symbols)
    }

    constructor ()
      ensures State() == Des(0, 0)
    {
      errors, local_symbols := 0, 0;
    }

    method ElabAndEval(G: Elab, e: PExpr) returns (r: Option<NetExpr>)
      modifies this
      ensures (r, State()) == ElabExpr(G, e, old(State()))
    {
      if !G.known(e) {
        errors := errors + 1;
        return None;
      }
      var folded := G.fold(e);
      r := if folded.Some? then Some(NetConst(folded.value)) else Some(NetDyn(e));
    }

    method ElaborateEvents(G: Elab, evs: seq<Event>) returns (wa: seq<Event>)
      modifies this
      ensures wa == LowerEvents(G, evs, old(State())).0
      ensures State() == LowerEvents(G, evs, old(State())).1
    {
      ghost var want := LowerEvents(G, evs, State());
      wa := [];
      assert evs[0..] == evs;
      for idx := 0 to |evs|
        invariant EventsKept(G, evs[idx..], State(), wa, want)
      {
        EventsStep(G, evs, idx, State(), wa, want);
        if EventKnown(G, evs[idx]) {
          wa := wa + [evs[idx]];
        } else {
          errors := errors + 1;
        }
      }
    }

    /** A delayed or event-controlled assignment is built as a block around a fresh
        local net. */
    method ElaborateAssign(G: Elab, x: string, e: PExpr, control: Control) returns (r: Option<NetProc>)
      modifies this
      ensures (r, State()) == LowerAssign(G, x, e, control, old(State()))
    {
      if x !in G.declared {
        errors := errors + 1;
        return None;
      }
      var delay: Option<NetExpr> := None;
      if control.Delayed? {
        delay := ElabAndEval(G, control.delay);
      }
      var wid := SigWidth(G, x);
      var sized := G.sized(e, wid);
      var ne := ElabAndEval(G, sized);
      if ne.None? {
        return None;
      }
      var rv := Pad(G, sized, ne.value, wid);
      if control.Plain? || (control.Delayed? && delay.None?) {
        return Some(NetAssign(Sig(x, wid), rv));
      }
      var tmp := local_symbols;
      local_symbols := local_symbols + 1;
      var bl := [NetAssign(Local(tmp, wid), rv)];
      var a2 := NetAssign(Sig(x, wid), NetLocal(tmp));
      match control {
        case Delayed(_) =>
          bl := bl + [NetPDelay(delay.value, Some(a2))];
        case AtEvent(evs) =>
          var wa := ElaborateEvents(G, evs);
          bl := bl + [NetEvWait(wa, Some(a2))];
        case AtEvents(n, evs) =>
          var count := ElabAndEval(G, n);
          if count.None? {
            return None;
          }
          var wa := ElaborateEvents(G, evs);
          bl := bl + LowerRepeated(G, n, count.value, NetEvWait(wa, Some(NOOP)));
          bl := bl + [a2];
      }
      assert control.Delayed? || control.AtEvent? ==> bl == [bl[0], bl[1]];
      r := Some(NetBlock(false, bl));
    }

    /** Append the statements one by one, skipping failures and empty blocks. */
    method ElaborateBlock(G: Elab, list: seq<Statement>) returns (cur: seq<NetProc>)
      modifies this
      ensures cur == LowerList(G, list, old(State())).0
      ensures State() == LowerList(G, list, old(State())).1
      decreases list, 0
    {
      ghost var want := LowerList(G, list, State());
      cur := [];
      assert list[0..] == list;
      for idx := 0 to |list|
        invariant Appended(G, list[idx..], State(), cur, want)
      {
        ListStep(G, list, idx, State(), cur, want);
        var tmp := ElaborateStatement(G, list[idx]);
        if tmp.None? || EmptyBlock(tmp.value) {
          continue;
        }
        cur := cur + [tmp.value];
      }
    }

    /** Fill the case table, one entry for every guard and one for a default. */
    method ElaborateCase(G: Elab, items: seq<CaseItem>) returns (res: array<NetItem>)
      modifies this
      ensures fresh(res)
      ensures res[..] == LowerItems(G, items, old(State())).0
      ensures State() == LowerItems(G, items, old(State())).1
      decreases items, 0
    {
      var icount := 0;
      for idx := 0 to |items|
        invariant icount + ItemCount(items[idx..]) == ItemCount(items)
      {
        assert items[idx..][0] == items[idx] && items[idx..][1..] == items[idx + 1..];
        icount := icount + if |items[idx].guards| == 0 then 1 else |items[idx].guards|;
      }
      ghost var want := LowerItems(G, items, State());
      LowerItemsLength(G, items, State());
      res := new NetItem[icount](_ => NetItem(None, None));
      assert items[0..] == items;
      var inum: nat := 0;
      for idx := 0 to |items|
        invariant inum <= icount && fresh(res) && res.Length == icount
        invariant Filled(G, items[idx..], State(), res[..inum], want)
      {
        ghost var todo := items[idx..];
        assert todo[0] == items[idx] && todo[1..] == items[idx + 1..];
        FilledStep(G, todo, State(), res[..inum], want);
        inum := ElaborateItem(G, items[idx], res, inum, want, items[idx + 1..]);
      }
      assert res[..inum] == res[..];
    }

    /** The entries of one item. The ghost arguments are the whole table and the items to come. */
    method ElaborateItem(G: Elab, item: CaseItem, res: array<NetItem>, start: nat,
                         ghost want: (seq<NetItem>, Des), ghost todo: seq<CaseItem>)
      returns (inum: nat)
      requires start <= res.Length == |want.0|
      requires FilledWithin(G, item, item.guards, todo, State(), res[..start], want)
      modifies this, res
      ensures inum <= res.Length
      ensures Filled(G, todo, State(), res[..inum], want)
      decreases item, 1
    {
      inum := start;
      if item.guards == [] {
        ghost var before := res[..inum];
        var st := ElaborateOpt(G, item.stat);
        res[inum] := NetItem(None, st);
        inum := inum + 1;
        assert res[..inum] == before + [NetItem(None, st)];
        return;
      }
      assert item.guards[0..] == item.guards;
      for e := 0 to |item.guards|
        invariant inum <= res.Length
        invariant FilledWithin(G, item, item.guards[e..], todo, State(), res[..inum], want)
      {
        ghost var guards, before := item.guards[e..], res[..inum];
        assert guards[0] == item.guards[e] && guards[1..] == item.guards[e + 1..];
        WithinStep(G, item, guards, todo, State(), before, want);
        var gu := ElabAndEval(G, item.guards[e]);
        var st := ElaborateOpt(G, item.stat);
        res[inum] := NetItem(gu, st);
        inum := inum + 1;
        assert res[..inum] == before + [NetItem(gu, st)];
      }
      assert item.guards[|item.guards|..] == [];
    }

    method ElaborateOpt(G: Elab, st: Option<Statement>) returns (r: Option<NetProc>)
      modifies this
      ensures (r, State()) == LowerOpt(G, st, old(State()))
      decreases st, 0
    {
      if st.None? {
        return None;
      }
      r := ElaborateStatement(G, st.value);
    }

    /** Elaborate a statement and everything inside it. */
    method ElaborateStatement(G: Elab, st: Statement) returns (r: Option<NetProc>)
      modifies this
      ensures (r, State()) == Lower(G, st, old(State()))
      decreases st, 1
    {
      match st
      case PAssign(x, e, control) =>
        r := ElaborateAssign(G, x, e, control);
      case PBlock(name, list) =>
        if |list| == 1 && name.None? {
          r := ElaborateStatement(G, list[0]);
        } else {
          var nets := ElaborateBlock(G, list);
          r := Some(NetBlock(name.Some?, nets));
        }
      case PCase(kind, e, items) =>
        var ne := ElabAndEval(G, e);
        if ne.None? {
          return None;
        }
        var res := ElaborateCase(G, items);
        r := Some(NetCase(kind, ne.value, res[..]));
      case PCondit(e, if_, else_) =>
        r := ElaborateCondit(G, st);
      case PFor(x1, e1, c, x2, e2, body) =>
        r := ElaborateFor(G, st);
      case PWhile(c, body) =>
        var cond := ElabAndEval(G, c);
        var nbody := ElaborateStatement(G, body);
        r := if cond.None? then None else Some(NetWhile(cond.value, nbody));
      case PRepeat(e, body) =>
        var count := ElabAndEval(G, e);
        if count.None? {
          return None;
        }
        var nbody := ElaborateStatement(G, body);
        if nbody.None? {
          return None;
        }
        var nets := LowerRepeated(G, e, count.value, nbody.value);
        r := Some(if nets == [] then NOOP else nets[0]);
      case PForever(body) =>
        var nbody := ElaborateStatement(G, body);
        r := if nbody.None? then None else Some(NetForever(nbody.value));
      case PDelay(e, stat) =>
        var ne := ElabAndEval(G, e);
        var nst := ElaborateOpt(G, stat);
        r := if ne.None? then None else Some(NetPDelay(ne.value, nst));
      case PEvent(evs, stat) =>
        var enet := ElaborateOpt(G, stat);
        if stat.Some? && enet.None? {
          return None;
        }
        var wa := ElaborateEvents(G, evs);
        r := Some(NetEvWait(wa, if stat.None? then Some(NOOP) else enet));
      case PWait(e, stat) =>
        var enet := ElaborateOpt(G, stat);
        if stat.Some? && enet.None? {
          return None;
        }
        r := ElaborateWait(G, e, if stat.None? then NOOP else enet.value);
    }

    method ElaborateCondit(G: Elab, st: Statement) returns (r: Option<NetProc>)
      requires st.PCondit?
      modifies this
      ensures (r, State()) == Lower(G, st, old(State()))
      decreases st, 0
    {
      var ne := ElabAndEval(G, st.expr);
      if ne.None? {
        return None;
      }
      if ne.value.NetConst? {
        var reduced := ReduceOr(ne.value.value);
        var branch := if reduced == V1 then st.if_ else st.else_;
        if branch.None? {
          return Some(NOOP);
        }
        r := ElaborateStatement(G, branch.value);
        return;
      }
      var i := ElaborateOpt(G, st.if_);
      var e := ElaborateOpt(G, st.else_);
      r := Some(NetCondit(Reduce(G, st.expr, ne.value), DropEmpty(i), DropEmpty(e)));
    }

    /** A for loop becomes an assignment and a while loop ending in the step. */
    method ElaborateFor(G: Elab, st: Statement) returns (r: Option<NetProc>)
      requires st.PFor?
      modifies this
      ensures (r, State()) == Lower(G, st, old(State()))
      decreases st, 0
    {
      if st.name1 !in G.declared {
        errors := errors + 1;
        return None;
      }
      var w1 := SigWidth(G, st.name1);
      var sized1 := G.sized(st.expr1, w1);
      var init := ElabAndEval(G, sized1);
      if init.None? {
        return None;
      }
      var top := [NetAssign(Sig(st.name1, w1), Pad(G, sized1, init.value, w1))];
      var body := [];
      var tmp := ElaborateStatement(G, st.stat);
      if tmp.Some? {
        body := body + [tmp.value];
        assert body == [tmp.value];
      }
      if st.name2 !in G.declared {
        errors := errors + 1;
        return Some(NetBlock(false, body));
      }
      var w2 := SigWidth(G, st.name2);
      var step := ElabAndEval(G, G.sized(st.expr2, w2));
      if step.None? {
        return None;
      }
      body := body + [NetAssign(Sig(st.name2, w2), step.value)];
      var ce := ElabAndEval(G, st.cond);
      if ce.None? {
        return None;
      }
      top := top + [NetWhile(ce.value, Some(NetBlock(false, body)))];
      assert top == [top[0], NetWhile(ce.value, Some(NetBlock(false, body)))];
      assert body == (if tmp.None? then [] else [tmp.value]) + [NetAssign(Sig(st.name2, w2), step.value)];
      r := Some(NetBlock(false, top));
    }

    method ElaborateWait(G: Elab, e: PExpr, enet: NetProc) returns (r: Option<NetProc>)
      modifies this
      ensures (r, State()) == LowerWait(G, e, enet, old(State()))
    {
      if !G.known(e) {
        errors := errors + 1;
        return None;
      }
      var folded := G.fold(e);
      if folded.Some? {
        var val := ReduceOr(folded.value);
        return Some(if val == V1 then enet else NetEvWait([], None));
      }
      if |G.inputs(e)| == 0 {
        errors := errors + 1;
        return None;
      }
      var expr := NetDyn(e);
      if G.width(e) > 1 {
        expr := NetOrReduce(expr);
      }
      var wait := NetEvWait([Probes(G.inputs(e))], None);
      var block := [NetWhile(NetNotOne(expr), Some(wait))];
      block := block + [enet];
      assert block == [block[0], enet];
      r := Some(NetBlock(false, block));
    }
  }
}
