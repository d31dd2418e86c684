/** The rounds of the elaboration work list (elaborate.cc), and the order they keep. */
module WorkList {
  import opened PExprs
  import opened Scopes
  import opened ScopeElab
  import opened ScopeSteps

  function Queue(ev: seq<Event>): seq<Item> {
    if ev == [] then []
    else if ev[0].Queued? then [ev[0].item] + Queue(ev[1..])
    else Queue(ev[1..])
  }

  function Runs(ev: seq<Event>): seq<Item> {
    if ev == [] then []
    else if ev[0].Ran? then [ev[0].item] + Runs(ev[1..])
    else Runs(ev[1..])
  }

  /** How many complete runs of the defparams there were. */
  function Tops(ev: seq<Event>): nat {
    if ev == [] then 0 else (if ev[0] == Ran(TopDefparams) then 1 else 0) + Tops(ev[1..])
  }

  lemma {:induction false} AppendQueue(a: seq<Event>, b: seq<Event>)
    ensures Queue(a + b) == Queue(a) + Queue(b)
  {
    if a == [] {
      assert a + b == b;
    } else {
      assert (a + b)[1..] == a[1..] + b;
      AppendQueue(a[1..], b);
    }
  }

  lemma {:induction false} AppendRuns(a: seq<Event>, b: seq<Event>)
    ensures Runs(a + b) == Runs(a) + Runs(b)
  {
    if a == [] {
      assert a + b == b;
    } else {
      assert (a + b)[1..] == a[1..] + b;
      AppendRuns(a[1..], b);
    }
  }

  lemma {:induction false} AppendTops(a: seq<Event>, b: seq<Event>)
    ensures Tops(a + b) == Tops(a) + Tops(b)
  {
    if a == [] {
      assert a + b == b;
    } else {
      assert (a + b)[1..] == a[1..] + b;
      AppendTops(a[1..], b);
    }
  }

  lemma AppendCounts(a: seq<Event>, b: seq<Event>)
    ensures Queue(a + b) == Queue(a) + Queue(b)
    ensures Runs(a + b) == Runs(a) + Runs(b)
    ensures Tops(a + b) == Tops(a) + Tops(b)
  {
    AppendQueue(a, b);
    AppendRuns(a, b);
    AppendTops(a, b);
  }

  ghost predicate Ready(d: Source, items: seq<Item>) {
    forall item <- items :: ValidItem(d, item)
  }

  /** Work that can be done, of rank below `r`. */
  ghost predicate Waiting(d: Source, items: seq<Item>, r: int) {
    Ready(d, items) && forall item <- items :: 0 <= Rank(d, item) < r && !item.TopDefparams?
  }

  function RunAll(d: Source, items: seq<Item>): seq<Event>
    requires Ready(d, items)
  {
    if items == [] then [] else [Ran(items[0])] + Effects(d, items[0]) + RunAll(d, items[1..])
  }

  lemma {:induction false} RunAllAppend(d: Source, a: seq<Item>, b: seq<Item>)
    requires Ready(d, a) && Ready(d, b)
    ensures Ready(d, a + b) && RunAll(d, a + b) == RunAll(d, a) + RunAll(d, b)
  {
    if a == [] {
      assert a + b == b && [] + RunAll(d, b) == RunAll(d, b);
    } else {
      var item, rest := a[0], a[1..];
      assert a == [item] + rest && a + b == [item] + (rest + b);
      RunAllAppend(d, rest, b);
      RunAllJoin(d, item, rest, b);
    }
  }

  lemma RunAllJoin(d: Source, item: Item, rest: seq<Item>, b: seq<Item>)
    requires ValidItem(d, item) && Ready(d, rest) && Ready(d, b) && Ready(d, rest + b)
    requires RunAll(d, rest + b) == RunAll(d, rest) + RunAll(d, b)
    ensures Ready(d, [item] + rest) && Ready(d, [item] + (rest + b))
    ensures RunAll(d, [item] + (rest + b)) == RunAll(d, [item] + rest) + RunAll(d, b)
  {
    RunAllFront(d, item, rest);
    RunAllFront(d, item, rest + b);
    Associate([Ran(item)] + Effects(d, item), RunAll(d, rest), RunAll(d, b));
  }

  lemma RunAllFront(d: Source, item: Item, items: seq<Item>)
    requires ValidItem(d, item) && Ready(d, items)
    ensures Ready(d, [item] + items)
    ensures RunAll(d, [item] + items) == [Ran(item)] + Effects(d, item) + RunAll(d, items)
  {
    var all := [item] + items;
    assert all[1..] == items;
  }

  lemma Associate(a: seq<Event>, b: seq<Event>, c: seq<Event>)
    ensures a + (b + c) == (a + b) + c
  {
  }

  /** A module scope that is created queues its generate schemes next; created paths are
      legal. */
  ghost predicate Orderly(d: Source, ev: seq<Event>) {
    Followed(ev) && forall e <- ev :: e.Created? ==> Legal(e.path, d.limit)
  }

  lemma OrderlyAppend(d: Source, a: seq<Event>, b: seq<Event>)
    requires Orderly(d, a) && Orderly(d, b)
    ensures Orderly(d, a + b)
  {
    FollowedAppend(a, b);
  }

  lemma {:induction false} SaneCounts(d: Source, ev: seq<Event>, r: int)
    requires Sane(d, ev, r)
    ensures Runs(ev) == [] && Tops(ev) == 0
    ensures Fresh(d, Queue(ev), r + 1)
  {
    if ev != [] {
      assert SaneEvent(d, ev[0], r);
      SaneCounts(d, ev[1..], r);
    }
  }

  /** Work that a round can have queued, of rank below `r`. */
  ghost predicate Fresh(d: Source, items: seq<Item>, r: int) {
    forall item <- items :: ValidItem(d, item) && 0 <= Rank(d, item) < r && !item.TopDefparams? && !item.LaterDefparams?
  }

  /** Running a batch runs each of its items once, in order, and queues lower work. */
  lemma {:induction false} RunAllCounts(d: Source, items: seq<Item>, r: int)
    requires Waiting(d, items, r)
    ensures Runs(RunAll(d, items)) == items && Tops(RunAll(d, items)) == 0
    ensures Orderly(d, RunAll(d, items))
    ensures Fresh(d, Queue(RunAll(d, items)), r - 1)
  {
    if items != [] {
      RunCounts(d, items[0]);
      RunAllCounts(d, items[1..], r);
      var head, rest := [Ran(items[0])] + Effects(d, items[0]), RunAll(d, items[1..]);
      AppendCounts(head, rest);
      OrderlyAppend(d, head, rest);
    }
  }

  lemma RunCounts(d: Source, item: Item)
    requires ValidItem(d, item) && !item.TopDefparams?
    ensures var ev := [Ran(item)] + Effects(d, item);
            && Runs(ev) == [item] && Tops(ev) == 0 && Orderly(d, ev)
            && Fresh(d, Queue(ev), Rank(d, item))
  {
    var head := Effects(d, item);
    EffectsKeep(d, item);
    SaneCounts(d, head, Rank(d, item) - 1);
    AppendCounts([Ran(item)], head);
    assert [Ran(item)][1..] == [];
    forall e <- head ensures e.Created? ==> Legal(e.path, d.limit) {
      assert SaneEvent(d, e, Rank(d, item) - 1);
    }
    OrderlyAppend(d, [Ran(item)], head);
  }

  /** One round's steps: the defparams are queued, and run after all the others. */
  function Round(d: Source, list: seq<Item>): (ev: seq<Event>)
    requires Ready(d, list)
    ensures ev == [Queued(TopDefparams)] + RunAll(d, list) + [Ran(TopDefparams)]
  {
    RunAllAppend(d, list, [TopDefparams]);
    [Queued(TopDefparams)] + RunAll(d, list + [TopDefparams])
  }

  /** What a round leaves in the queue. */
  function Next(d: Source, list: seq<Item>): seq<Item>
    requires Ready(d, list)
  {
    Queue(RunAll(d, list))
  }

  lemma RoundCounts(d: Source, list: seq<Item>, r: int)
    requires Waiting(d, list, r)
    ensures Runs(Round(d, list)) == list + [TopDefparams]
    ensures Queue(Round(d, list)) == [TopDefparams] + Next(d, list)
    ensures Tops(Round(d, list)) == 1
    ensures Orderly(d, Round(d, list))
  {
    RunAllCounts(d, list, r);
    SurroundCounts(RunAll(d, list));
    OrderlyAppend(d, [Queued(TopDefparams)], RunAll(d, list));
    OrderlyAppend(d, [Queued(TopDefparams)] + RunAll(d, list), [Ran(TopDefparams)]);
  }

  lemma SurroundCounts(ev: seq<Event>)
    ensures var all := [Queued(TopDefparams)] + ev + [Ran(TopDefparams)];
      Queue(all) == [TopDefparams] + Queue(ev) && Runs(all) == Runs(ev) + [TopDefparams] && Tops(all) == Tops(ev) + 1
  {
    var a, z := [Queued(TopDefparams)], [Ran(TopDefparams)];
    assert Queue(a) == [TopDefparams] && Runs(a) == [] && Tops(a) == 0 by { assert a[1..] == []; }
    assert Queue(z) == [] && Runs(z) == [TopDefparams] && Tops(z) == 1 by { assert z[1..] == []; }
    AppendCounts(a, ev);
    AppendCounts(a + ev, z);
    assert Queue(a + ev + z) == Queue(a + ev);
    assert Runs(a + ev) == Runs(ev);
  }

  lemma NextWaits(d: Source, list: seq<Item>, r: int)
    requires Waiting(d, list, r) && Next(d, list) != []
    ensures Waiting(d, Next(d, list) + [LaterDefparams], r - 1) && r > 1
  {
    RunAllCounts(d, list, r);
    var next := Next(d, list);
    assert next[0] in next;
  }

  /** All the rounds from a list of waiting work. They are over within `r` rounds. */
  function Trace(d: Source, list: seq<Item>, r: nat): seq<Event>
    requires Waiting(d, list, r)
    decreases r
  {
    if list == [] then [] else Round(d, list) + Tail(d, list, r)
  }

  function Tail(d: Source, list: seq<Item>, r: nat): seq<Event>
    requires Waiting(d, list, r)
    decreases r, 0
  {
    if Next(d, list) == [] then []
    else
      NextWaits(d, list, r);
      [Queued(LaterDefparams)] + Trace(d, Next(d, list) + [LaterDefparams], r - 1)
  }

  /** The roots: a missing module is an error, the others get a scope and an item. */
  function RootStart(d: Source, root: string): seq<Event> {
    if root in d.modules then [Created(RootPath(root)), Queued(Root(root))] else [Failed([])]
  }

  function StartUp(d: Source, roots: seq<string>): seq<Event> {
    if roots == [] then [] else RootStart(d, roots[0]) + StartUp(d, roots[1..])
  }

  lemma {:induction false} StartUpReady(d: Source, roots: seq<string>)
    ensures Waiting(d, Queue(StartUp(d, roots)), RoundLimit(d))
    ensures Runs(StartUp(d, roots)) == [] && Tops(StartUp(d, roots)) == 0
  {
    if roots != [] {
      StartUpReady(d, roots[1..]);
      var head := RootStart(d, roots[0]);
      AppendCounts(head, StartUp(d, roots[1..]));
      if roots[0] in d.modules {
        assert head[1..] == [Queued(Root(roots[0]))] && head[1..][1..] == [];
        assert Queue(head) == [Root(roots[0])];
      } else {
        assert head[1..] == [];
      }
    }
  }

  /** A bound on the rounds that is enough for any work. */
  function RoundLimit(d: Source): nat {
    2 * Capacity(d) + 1
  }

  /** The whole elaboration of scopes. */
  function Elaboration(d: Source, roots: seq<string>): seq<Event> {
    StartUpReady(d, roots);
    StartUp(d, roots) + Trace(d, Queue(StartUp(d, roots)), RoundLimit(d))
  }

  // Conservation.

  lemma JoinRounds(head: seq<Event>, tail: seq<Event>, list: seq<Item>, next: seq<Item>)
    requires Runs(head) == list + [TopDefparams] && Queue(head) == [TopDefparams] + next
    requires Runs(tail) == next + Queue(tail)
    ensures Runs(head + tail) == list + Queue(head + tail)
    ensures Tops(head + tail) == Tops(head) + Tops(tail)
  {
    AppendCounts(head, tail);
    assert Queue(head + tail) == [TopDefparams] + Runs(tail);
  }

  lemma JoinLater(t: seq<Event>, next: seq<Item>)
    requires Runs(t) == (next + [LaterDefparams]) + Queue(t)
    ensures Runs([Queued(LaterDefparams)] + t) == next + Queue([Queued(LaterDefparams)] + t)
    ensures Tops([Queued(LaterDefparams)] + t) == Tops(t)
  {
    var b := [Queued(LaterDefparams)];
    assert b[1..] == [];
    AppendCounts(b, t);
    assert Queue(b) == [LaterDefparams];
  }

  lemma JoinStartUp(s: seq<Event>, t: seq<Event>, list: seq<Item>)
    requires Runs(s) == [] && Queue(s) == list && Runs(t) == list + Queue(t) && Tops(s) == 0
    ensures Runs(s + t) == Queue(s + t) && Tops(s + t) == Tops(t)
  {
    AppendCounts(s, t);
  }

  lemma {:induction false} TraceConserves(d: Source, list: seq<Item>, r: nat)
    requires Waiting(d, list, r)
    ensures Runs(Trace(d, list, r)) == list + Queue(Trace(d, list, r))
    ensures Orderly(d, Trace(d, list, r))
    ensures Tops(Trace(d, list, r)) <= r
    decreases r
  {
    if list != [] {
      assert list[0] in list;
      RoundCounts(d, list, r);
      TailConserves(d, list, r);
      var head, tail := Round(d, list), Tail(d, list, r);
      JoinRounds(head, tail, list, Next(d, list));
      OrderlyAppend(d, Round(d, list), Tail(d, list, r));
    }
  }

  lemma {:induction false} TailConserves(d: Source, list: seq<Item>, r: nat)
    requires Waiting(d, list, r) && list != []
    ensures Next(d, list) + Queue(Tail(d, list, r)) == Runs(Tail(d, list, r))
    ensures Orderly(d, Tail(d, list, r))
    ensures Tops(Tail(d, list, r)) <= r - 1
    decreases r, 0
  {
    assert list[0] in list;
    var next := Next(d, list);
    if next != [] {
      NextWaits(d, list, r);
      var b, t := [Queued(LaterDefparams)], Trace(d, next + [LaterDefparams], r - 1);
      TraceConserves(d, next + [LaterDefparams], r - 1);
      JoinLater(t, next);
      OrderlyAppend(d, b, t);
    }
  }

  /** Every scope created has a legal path, of no more module scopes than the bound. */
  ghost predicate Bounded(d: Source, ev: seq<Event>) {
    forall e <- ev :: e.Created? ==>
      Legal(e.path, d.limit) && Modules(e.path, d.modules.Keys) <= |d.modules| * (d.limit + 1)
  }

  lemma LegalIsBounded(d: Source, ev: seq<Event>)
    requires forall e <- ev :: e.Created? ==> Legal(e.path, d.limit)
    ensures Bounded(d, ev)
  {
    forall e: Event | e in ev && e.Created?
      ensures Legal(e.path, d.limit) && Modules(e.path, d.modules.Keys) <= |d.modules| * (d.limit + 1)
    {
      DepthBound(e.path, d.modules.Keys, d.limit);
      TimesIsProduct(|d.modules|, d.limit + 1);
      assert |d.modules.Keys| == |d.modules|;
    }
  }

  lemma {:induction false} StartUpBounded(d: Source, roots: seq<string>)
    ensures Bounded(d, StartUp(d, roots))
  {
    if roots != [] {
      LegalRoot(roots[0], d.limit);
      LegalIsBounded(d, RootStart(d, roots[0]));
      StartUpBounded(d, roots[1..]);
    }
  }

  lemma CapacityIs(d: Source)
    ensures Capacity(d) == |d.modules| * (d.limit + 1)
  {
    assert |Mods(d)| == |d.modules|;
    TimesIsProduct(|d.modules|, d.limit + 1);
  }

  /** Every queued item runs, exactly once and in the order of the queue; the rounds are
      no more than twice the bound on the module scopes of a path, plus one; and no path
      that is ever created exceeds that bound. */
  lemma ElaborationConserves(d: Source, roots: seq<string>)
    ensures Runs(Elaboration(d, roots)) == Queue(Elaboration(d, roots))
    ensures Tops(Elaboration(d, roots)) <= 2 * (|d.modules| * (d.limit + 1)) + 1
    ensures Bounded(d, Elaboration(d, roots))
  {
    StartUpReady(d, roots);
    var s, list := StartUp(d, roots), Queue(StartUp(d, roots));
    StartUpBounded(d, roots);
    FromStartUp(d, s, list);
    CapacityIs(d);
  }

  lemma FromStartUp(d: Source, s: seq<Event>, list: seq<Item>)
    requires Runs(s) == [] && Tops(s) == 0 && Queue(s) == list && Bounded(d, s)
    requires Waiting(d, list, RoundLimit(d))
    ensures var log := s + Trace(d, list, RoundLimit(d));
            Runs(log) == Queue(log) && Tops(log) <= RoundLimit(d) && Bounded(d, log)
  {
    var t := Trace(d, list, RoundLimit(d));
    TraceConserves(d, list, RoundLimit(d));
    JoinStartUp(s, t, list);
    LegalIsBounded(d, t);
  }
}
