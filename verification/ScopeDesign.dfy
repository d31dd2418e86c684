/** Scope elaboration as it is carried out (elab_scope.cc, elaborate.cc): scopes are made,
    errors counted and work appended in place, and the work list is drained in rounds. */
module ScopeDesign {
  import opened PExprs
  import opened Scopes
  import opened ScopeElab
  import opened ScopeSteps
  import opened WorkList

  function CreatedPaths(ev: seq<Event>): seq<Path> {
    if ev == [] then []
    else if ev[0].Created? then [ev[0].path] + CreatedPaths(ev[1..])
    else CreatedPaths(ev[1..])
  }

  function Failures(ev: seq<Event>): nat {
    if ev == [] then 0 else (if ev[0].Failed? then 1 else 0) + Failures(ev[1..])
  }

  lemma {:induction false} AppendPaths(a: seq<Event>, b: seq<Event>)
    ensures CreatedPaths(a + b) == CreatedPaths(a) + CreatedPaths(b)
  {
    if a == [] {
      assert a + b == b;
    } else {
      assert (a + b)[1..] == a[1..] + b;
      AppendPaths(a[1..], b);
    }
  }

  lemma {:induction false} AppendFailures(a: seq<Event>, b: seq<Event>)
    ensures Failures(a + b) == Failures(a) + Failures(b)
  {
    if a == [] {
      assert a + b == b;
    } else {
      assert (a + b)[1..] == a[1..] + b;
      AppendFailures(a[1..], b);
    }
  }

  /** All that elaboration changes, with the history of its steps. */
  datatype Snapshot = Snapshot(workList: seq<Item>, scopes: seq<Path>, errors: nat, log: seq<Event>)

  function After(s: Snapshot, ev: seq<Event>): Snapshot {
    Snapshot(s.workList + Queue(ev), s.scopes + CreatedPaths(ev), s.errors + Failures(ev), s.log + ev)
  }

  lemma AfterAppend(s: Snapshot, a: seq<Event>, b: seq<Event>)
    ensures After(After(s, a), b) == After(s, a + b)
  {
    AppendQueue(a, b);
    AppendPaths(a, b);
    AppendFailures(a, b);
    assert s.workList + Queue(a) + Queue(b) == s.workList + (Queue(a) + Queue(b));
    assert s.scopes + CreatedPaths(a) + CreatedPaths(b) == s.scopes + (CreatedPaths(a) + CreatedPaths(b));
    assert s.log + a + b == s.log + (a + b);
  }

  lemma AfterOne(s: Snapshot, e: Event)
    ensures After(s, [e]) ==
      match e
      case Created(path) => s.(scopes := s.scopes + [path], log := s.log + [e])
      case Queued(item) => s.(workList := s.workList + [item], log := s.log + [e])
      case Failed(_) => s.(errors := s.errors + 1, log := s.log + [e])
      case Ran(_) => s.(log := s.log + [e])
  {
    assert [e][1..] == [];
    assert Queue([e]) == if e.Queued? then [e.item] else [];
    assert Failures([e]) == if e.Failed? then 1 else 0;
    assert CreatedPaths([e]) == if e.Created? then [e.path] else [];
    assert s.scopes + [] == s.scopes && s.workList + [] == s.workList;
  }

  lemma AfterNone(s: Snapshot)
    ensures After(s, []) == s
  {
    assert s.scopes + [] == s.scopes && s.workList + [] == s.workList && s.log + [] == s.log;
  }

  /** One turn of a generate loop: its steps, and the genvar value to go on with. */
  function Turn(d: Source, path: Path, g: Generate, v: int): seq<Event>
    requires Legal(path, d.limit) && g.Loop? && AllFinite(d, g.body.schemes)
  {
    var test := d.value(path, Some(v), g.test);
    if test.None? then [Failed(path)]
    else if test.value == 0 then []
    else
      var scope := GenScope(d, path, g.name, Some(v), g.body);
      if d.value(path, Some(v), g.step).None? then scope + [Failed(path)] else scope
  }

  function TurnStep(d: Source, path: Path, g: Generate, v: int): Option<int>
    requires g.Loop?
  {
    var test := d.value(path, Some(v), g.test);
    if test.None? || test.value == 0 then None else d.value(path, Some(v), g.step)
  }

  lemma TurnFirst(d: Source, path: Path, g: Generate, v: int, n: nat, done: seq<Event>)
    requires Legal(path, d.limit) && g.Loop? && Ends(d, path, g, v, n) && AllFinite(d, g.body.schemes)
    ensures var step := TurnStep(d, path, g, v); var all := LoopFrom(d, path, g, v, n);
      if step.None? then all == Turn(d, path, g, v) && done + Turn(d, path, g, v) == done + all
      else
        && n > 0 && Ends(d, path, g, step.value, n - 1)
        && done + all == (done + Turn(d, path, g, v)) + LoopFrom(d, path, g, step.value, n - 1)
  {
  }

  lemma InstancesStep(d: Source, sc: Path, g: Gate, indices: seq<Option<int>>, idx: nat, done: seq<Event>)
    returns (step: seq<Event>)
    requires CanInstantiate(d, sc, g) && idx < |indices|
    ensures var myScope := sc + [ModuleScope(g.mod, g.inst, indices[idx])];
      && Legal(myScope, d.limit) && Left(d, myScope) < Left(d, sc) && Left(d, sc) >= 0
      && step == [Created(myScope)] + ElabModule(d, myScope, g.mod)
    ensures done + ElabInstances(d, sc, g, indices[idx..])
            == (done + step) + ElabInstances(d, sc, g, indices[idx + 1..])
  {
    assert indices[idx..][1..] == indices[idx + 1..];
    var myScope := sc + [ModuleScope(g.mod, g.inst, indices[idx])];
    BudgetInstance(sc, g.mod, g.inst, indices[idx], Mods(d), d.limit);
    step := [Created(myScope)] + ElabModule(d, myScope, g.mod);
    Associate(done, step, ElabInstances(d, sc, g, indices[idx + 1..]));
  }

  lemma RunAllFirst(d: Source, items: seq<Item>, done: seq<Event>)
    requires Ready(d, items) && items != []
    ensures Ready(d, items[1..])
    ensures done + RunAll(d, items) == (done + ([Ran(items[0])] + Effects(d, items[0]))) + RunAll(d, items[1..])
  {
  }

  lemma AfterValid(s: Snapshot, ev: seq<Event>)
    requires s.scopes == CreatedPaths(s.log) && s.errors == Failures(s.log)
    ensures After(s, ev).scopes == CreatedPaths(s.log + ev) && After(s, ev).errors == Failures(s.log + ev)
  {
    AppendPaths(s.log, ev);
    AppendFailures(s.log, ev);
  }

  lemma RoundQueue(d: Source, list: seq<Item>, before: seq<Event>)
    requires Ready(d, list)
    ensures Ready(d, list + [TopDefparams]) && Queue(RunAll(d, list + [TopDefparams])) == Next(d, list)
    ensures before + [Queued(TopDefparams)] + RunAll(d, list + [TopDefparams]) == before + Round(d, list)
  {
    RunAllAppend(d, list, [TopDefparams]);
    assert [TopDefparams][1..] == [] && RunAll(d, [TopDefparams]) == [Ran(TopDefparams)];
    AppendQueue(RunAll(d, list), [Ran(TopDefparams)]);
    assert [Ran(TopDefparams)][1..] == [];
    assert Queue([Ran(TopDefparams)]) == [];
  }

  lemma StartFirst(d: Source, roots: seq<string>, k: nat, done: seq<Event>)
    requires k < |roots|
    ensures done + StartUp(d, roots[k..]) == (done + RootStart(d, roots[k])) + StartUp(d, roots[k + 1..])
  {
    assert roots[k..][1..] == roots[k + 1..];
  }

  lemma TraceFirst(d: Source, list: seq<Item>, r: nat, before: seq<Event>)
    requires Waiting(d, list, r) && list != []
    ensures var log := before + Round(d, list);
      if Next(d, list) == [] then before + Trace(d, list, r) == log
      else
        && r > 1 && Waiting(d, Next(d, list) + [LaterDefparams], r - 1)
        && before + Trace(d, list, r)
           == (log + [Queued(LaterDefparams)]) + Trace(d, Next(d, list) + [LaterDefparams], r - 1)
  {
    if Next(d, list) != [] {
      NextWaits(d, list, r);
    }
  }

  class Design {
    var workList: seq<Item>
    var scopes: seq<Path>
    var errors: nat
    ghost var log: seq<Event>

    constructor ()
      ensures State() == Snapshot([], [], 0, [])
    {
      workList, scopes, errors, log := [], [], 0, [];
    }

    ghost function State(): Snapshot
      reads this
    {
      Snapshot(workList, scopes, errors, log)
    }

    /** The scopes and the error count are those the history tells of. */
    ghost predicate Valid()
      reads this
    {
      scopes == CreatedPaths(log) && errors == Failures(log)
    }

    method NewScope(path: Path)
      modifies this
      ensures State() == After(old(State()), [Created(path)])
    {
      scopes, log := scopes + [path], log + [Created(path)];
      AfterOne(old(State()), Created(path));
    }

    method PushBack(item: Item)
      modifies this
      ensures State() == After(old(State()), [Queued(item)])
    {
      workList, log := workList + [item], log + [Queued(item)];
      AfterOne(old(State()), Queued(item));
    }

    method Error(path: Path)
      modifies this
      ensures State() == After(old(State()), [Failed(path)])
    {
      errors, log := errors + 1, log + [Failed(path)];
      AfterOne(old(State()), Failed(path));
    }

    // Module instances.

    method ElaborateScope(d: Source, scope: Path, mod: string)
      requires Legal(scope, d.limit) && mod in d.modules
      modifies this
      ensures State() == After(old(State()), ElabModule(d, scope, mod))
      decreases Left(d, scope), 3, 0
    {
      PushBack(Generates(scope, mod));
      ElaborateGates(d, scope, d.modules[mod].gates);
      AfterAppend(old(State()), [Queued(Generates(scope, mod))], ElabGates(d, scope, d.modules[mod].gates));
    }

    method ElaborateGates(d: Source, sc: Path, gates: seq<Gate>)
      requires Legal(sc, d.limit)
      modifies this
      ensures State() == After(old(State()), ElabGates(d, sc, gates))
      decreases Left(d, sc), 2, |gates|
    {
      ghost var done: seq<Event> := [];
      assert gates[0..] == gates;
      for cur := 0 to |gates|
        invariant State() == After(old(State()), done)
        invariant done + ElabGates(d, sc, gates[cur..]) == ElabGates(d, sc, gates)
      {
        assert gates[cur..][1..] == gates[cur + 1..];
        ElaborateGate(d, sc, gates[cur]);
        AfterAppend(old(State()), done, ElabGate(d, sc, gates[cur]));
        done := done + ElabGate(d, sc, gates[cur]);
      }
      assert done == ElabGates(d, sc, gates);
    }

    method ElaborateGate(d: Source, sc: Path, g: Gate)
      requires Legal(sc, d.limit)
      modifies this
      ensures State() == After(old(State()), ElabGate(d, sc, g))
      decreases Left(d, sc), 1, 0
    {
      if g.mod in d.modules {
        if g.inst == "" || d.taken(sc, g.line) {
          Error(sc);
          return;
        }
        var verdict := CheckRecursion(sc, g.mod, d.limit);
        if verdict != Allowed {
          Error(sc);
          return;
        }
        if g.range.Some? {
          PushBack(Instances(sc, g));
        } else {
          ElaborateInstances(d, sc, g, [None]);
        }
      } else if g.mod !in d.primitives {
        Error(sc);
      }
    }

    method ElaborateInstances(d: Source, sc: Path, g: Gate, indices: seq<Option<int>>)
      requires CanInstantiate(d, sc, g)
      modifies this
      ensures State() == After(old(State()), ElabInstances(d, sc, g, indices))
      decreases Left(d, sc), 0, |indices|
    {
      ghost var done: seq<Event> := [];
      assert indices[0..] == indices;
      for idx := 0 to |indices|
        invariant State() == After(old(State()), done)
        invariant done + ElabInstances(d, sc, g, indices[idx..]) == ElabInstances(d, sc, g, indices)
      {
        ghost var step := InstancesStep(d, sc, g, indices, idx, done);
        var myScope := sc + [ModuleScope(g.mod, g.inst, indices[idx])];
        ElaborateInstance(d, myScope, g.mod);
        AfterAppend(old(State()), done, step);
        done := done + step;
      }
      assert done == ElabInstances(d, sc, g, indices);
    }

    method ElaborateInstance(d: Source, myScope: Path, mod: string)
      requires Legal(myScope, d.limit) && mod in d.modules
      modifies this
      ensures State() == After(old(State()), [Created(myScope)] + ElabModule(d, myScope, mod))
      decreases Left(d, myScope), 4, 0
    {
      NewScope(myScope);
      ElaborateScope(d, myScope, mod);
      AfterAppend(old(State()), [Created(myScope)], ElabModule(d, myScope, mod));
    }

    method ElaborateRange(d: Source, sc: Path, g: Gate)
      requires CanInstantiate(d, sc, g)
      modifies this
      ensures State() == After(old(State()), ElabRange(d, sc, g))
    {
      var indices := [None];
      if g.range.Some? {
        var msb, lsb := d.value(sc, None, g.range.value.0), d.value(sc, None, g.range.value.1);
        if msb.Some? {
          if lsb.None? {
            Error(sc);
            return;
          }
          indices := Indices(msb.value, lsb.value);
        }
      }
      ElaborateInstances(d, sc, g, indices);
    }

    // Generate schemes.

    method GenerateScopes(d: Source, container: Path, schemes: seq<Generate>)
      requires Legal(container, d.limit) && AllFinite(d, schemes)
      modifies this
      ensures State() == After(old(State()), GenSchemes(d, container, schemes))
      decreases schemes
    {
      ghost var done: seq<Event> := [];
      assert schemes[0..] == schemes;
      for cur := 0 to |schemes|
        invariant State() == After(old(State()), done)
        invariant AllFinite(d, schemes[cur..])
        invariant done + GenSchemes(d, container, schemes[cur..]) == GenSchemes(d, container, schemes)
      {
        assert schemes[cur..][1..] == schemes[cur + 1..];
        GenerateScope(d, container, schemes[cur]);
        AfterAppend(old(State()), done, GenScheme(d, container, schemes[cur]));
        done := done + GenScheme(d, container, schemes[cur]);
      }
      assert done == GenSchemes(d, container, schemes);
    }

    method GenerateScope(d: Source, container: Path, g: Generate)
      requires Legal(container, d.limit) && Finite(d, g)
      modifies this
      ensures State() == After(old(State()), GenScheme(d, container, g))
      decreases g
    {
      match g
      case Loop(line, _, init, _, _, _) =>
        var v := d.value(container, None, init);
        if v.None? || d.taken(container, line) {
          Error(container);
        } else {
          GenerateLoop(d, container, g, v.value);
        }
      case Condit(line, name, els, test, body) =>
        var v := d.value(container, None, test);
        if v.None? {
          Error(container);
        } else if (v.value == 0 && !els) || (v.value != 0 && els) {
        } else {
          GenerateNested(d, container, line, name, body);
        }
      case Case(line, test, items) =>
        var v := d.value(container, None, test);
        if v.None? {
          Error(container);
          return;
        }
        var choice := PickItem(d, container, v.value, items);
        if choice.NotConstant? {
          Error(container);
        } else if choice.item.Some? {
          var item := choice.item.value;
          GenerateNested(d, container, item.line, item.name, item.body);
        }
      case Block(line, name, body) =>
        if d.taken(container, line) {
          Error(container);
        } else {
          ElaborateSubscope(d, container, name, None, body);
        }
    }

    method GenerateLoop(d: Source, container: Path, g: Generate, init: int)
      requires Legal(container, d.limit) && g.Loop? && AllFinite(d, g.body.schemes)
      requires Ends(d, container, g, init, d.turns(container, g.line))
      modifies this
      ensures State() == After(old(State()), LoopFrom(d, container, g, init, d.turns(container, g.line)))
      decreases g, 1
    {
      var genvar := init;
      ghost var done: seq<Event> := [];
      ghost var turns := d.turns(container, g.line);
      ghost var total := LoopFrom(d, container, g, init, turns);
      AfterNone(State());
      while true
        invariant Ends(d, container, g, genvar, turns)
        invariant State() == After(old(State()), done)
        invariant done + LoopFrom(d, container, g, genvar, turns) == total
        decreases turns
      {
        var step := LoopTurn(d, container, g, genvar, turns);
        ghost var turn := Turn(d, container, g, genvar);
        TurnFirst(d, container, g, genvar, turns, done);
        AfterAppend(old(State()), done, turn);
        done := done + turn;
        if step.None? {
          return;
        }
        genvar, turns := step.value, turns - 1;
      }
    }

    /** The test of a generate loop and, when it holds, one turn of it with the step. */
    method LoopTurn(d: Source, container: Path, g: Generate, genvar: int, ghost turns: nat) returns (step: Option<int>)
      requires Legal(container, d.limit) && g.Loop? && Ends(d, container, g, genvar, turns)
      requires AllFinite(d, g.body.schemes)
      modifies this
      ensures State() == After(old(State()), Turn(d, container, g, genvar))
      ensures step == TurnStep(d, container, g, genvar)
      decreases g, 0
    {
      var test := d.value(container, Some(genvar), g.test);
      if test.None? {
        Error(container);
        return None;
      }
      if test.value == 0 {
        AfterNone(State());
        return None;
      }
      ElaborateSubscope(d, container, g.name, Some(genvar), g.body);
      step := d.value(container, Some(genvar), g.step);
      if step.None? {
        Error(container);
        AfterAppend(old(State()), GenScope(d, container, g.name, Some(genvar), g.body), [Failed(container)]);
      }
    }

    method GenerateNested(d: Source, container: Path, line: nat, name: string, body: Body)
      requires Legal(container, d.limit) && AllFinite(d, body.schemes)
      modifies this
      ensures State() == After(old(State()), GenNested(d, container, line, name, body))
      decreases body, 1
    {
      if d.taken(container, line) {
        Error(container);
      } else if DirectNested(name, body) {
        GenerateScopes(d, container, body.schemes);
      } else {
        ElaborateSubscope(d, container, name, None, body);
      }
    }

    method ElaborateSubscope(d: Source, container: Path, name: string, index: Option<int>, body: Body)
      requires Legal(container, d.limit) && AllFinite(d, body.schemes)
      modifies this
      ensures State() == After(old(State()), GenScope(d, container, name, index, body))
      decreases body, 0
    {
      var scope := container + [GenBlock(name, index)];
      LegalBlock(container, name, index, d.limit);
      NewScope(scope);
      GenerateScopes(d, scope, body.schemes);
      ElaborateGates(d, scope, body.gates);
      ghost var a, b, c := [Created(scope)], GenSchemes(d, scope, body.schemes), ElabGates(d, scope, body.gates);
      AfterAppend(old(State()), a, b);
      AfterAppend(old(State()), a + b, c);
    }

    /** The walk over the items of a generate case. */
    method PickItem(d: Source, container: Path, v: int, items: seq<CaseItem>) returns (choice: Choice)
      ensures choice == Pick(d, container, v, items, None)
    {
      var defaultItem: Option<CaseItem> := None;
      var cur := 0;
      assert items[0..] == items;
      while cur < |items|
        invariant 0 <= cur <= |items|
        invariant Pick(d, container, v, items, None) == Pick(d, container, v, items[cur..], defaultItem)
      {
        var item := items[cur];
        assert items[cur..][1..] == items[cur + 1..];
        if item.tests == [] {
          defaultItem := Some(item);
        } else {
          var matchFlag := MatchItem(d, container, v, item.tests);
          if matchFlag.None? {
            return NotConstant;
          }
          if matchFlag.value {
            return Picked(Some(item));
          }
        }
        cur := cur + 1;
      }
      return Picked(defaultItem);
    }

    method MatchItem(d: Source, container: Path, v: int, tests: seq<string>) returns (matchFlag: Option<bool>)
      ensures matchFlag == Matches(d, container, v, tests)
    {
      matchFlag := Some(false);
      var idx := 0;
      assert tests[0..] == tests;
      while idx < |tests| && matchFlag == Some(false)
        invariant 0 <= idx <= |tests|
        invariant matchFlag == Some(false) ==> Matches(d, container, v, tests) == Matches(d, container, v, tests[idx..])
        invariant matchFlag != Some(false) ==> Matches(d, container, v, tests) == matchFlag
      {
        var item := d.value(container, None, tests[idx]);
        assert tests[idx..][1..] == tests[idx + 1..];
        if item.None? {
          matchFlag := None;
        } else if item.value == v {
          matchFlag := Some(true);
        }
        idx := idx + 1;
      }
    }

    // The work list.

    /** One work item does its part. */
    method ElaborateRunrun(d: Source, item: Item)
      requires ValidItem(d, item)
      modifies this
      ensures State() == After(old(State()), [Ran(item)] + Effects(d, item))
    {
      log := log + [Ran(item)];
      AfterOne(old(State()), Ran(item));
      match item {
        case Root(mod) =>
          LegalRoot(mod, d.limit);
          ElaborateScope(d, RootPath(mod), mod);
        case Generates(path, mod) => GenerateScopes(d, path, d.modules[mod].schemes);
        case Instances(path, g) => ElaborateRange(d, path, g);
        case TopDefparams =>
        case LaterDefparams =>
      }
      AfterAppend(old(State()), [Ran(item)], Effects(d, item));
    }

    /** The queue is moved aside. */
    method TakeQueue() returns (curQueue: seq<Item>)
      modifies this
      ensures curQueue == old(workList)
      ensures State() == old(State()).(workList := [])
    {
      curQueue := [];
      while workList != []
        invariant curQueue + workList == old(workList)
        invariant scopes == old(scopes) && errors == old(errors) && log == old(log)
        decreases |workList|
      {
        curQueue, workList := curQueue + [workList[0]], workList[1..];
      }
    }

    /** It is run; new work shows up in the work list. */
    method RunQueue(d: Source, queue: seq<Item>)
      requires Ready(d, queue)
      modifies this
      ensures State() == After(old(State()), RunAll(d, queue))
    {
      var curQueue := queue;
      ghost var done: seq<Event> := [];
      AfterNone(State());
      while curQueue != []
        invariant Ready(d, curQueue)
        invariant State() == After(old(State()), done)
        invariant done + RunAll(d, curQueue) == RunAll(d, queue)
        decreases |curQueue|
      {
        RunAllFirst(d, curQueue, done);
        var tmp := curQueue[0];
        curQueue := curQueue[1..];
        ElaborateRunrun(d, tmp);
        ghost var step := [Ran(tmp)] + Effects(d, tmp);
        AfterAppend(old(State()), done, step);
        done := done + step;
      }
      assert done == RunAll(d, queue);
    }

    /** One pass over the work there is, with the defparams at its end. */
    method Pass(d: Source)
      requires Valid() && Ready(d, workList)
      modifies this
      ensures Valid() && workList == Next(d, old(workList))
      ensures log == old(log) + Round(d, old(workList))
    {
      ghost var list, before := workList, log;
      PushTop();
      var curQueue := TakeQueue();
      RoundQueue(d, list, before);
      ghost var middle := State();
      RunQueue(d, curQueue);
      AfterValid(middle, RunAll(d, curQueue));
    }

    method PushTop()
      requires Valid()
      modifies this
      ensures Valid() && workList == old(workList) + [TopDefparams] && log == old(log) + [Queued(TopDefparams)]
    {
      PushBack(TopDefparams);
      AfterOne(old(State()), Queued(TopDefparams));
      AfterValid(old(State()), [Queued(TopDefparams)]);
    }

    /** The roots are set up, and then the work list is run until it is empty. */
    method Elaborate(d: Source, roots: seq<string>)
      requires State() == Snapshot([], [], 0, [])
      modifies this
      ensures workList == [] && log == Elaboration(d, roots)
      ensures Valid()
    {
      StartRoots(d, roots);
      StartUpReady(d, roots);
      ghost var s, r := log, RoundLimit(d);
      while workList != []
        invariant Valid() && Waiting(d, workList, r)
        invariant log + Trace(d, workList, r) == Elaboration(d, roots)
        decreases r
      {
        ghost var list, before := workList, log;
        assert list[0] in list;
        TraceFirst(d, list, r, before);
        Pass(d);
        r := r - 1;
        if workList != [] {
          PushBack(LaterDefparams);
          AfterOne(Snapshot(Next(d, list), scopes, errors, before + Round(d, list)), Queued(LaterDefparams));
          AppendPaths(before + Round(d, list), [Queued(LaterDefparams)]);
          AppendFailures(before + Round(d, list), [Queued(LaterDefparams)]);
        }
      }
    }

    method StartRoots(d: Source, roots: seq<string>)
      requires State() == Snapshot([], [], 0, [])
      modifies this
      ensures Valid() && log == StartUp(d, roots) && workList == Queue(log)
    {
      ghost var done: seq<Event> := [];
      assert roots[0..] == roots;
      AfterNone(State());
      for root := 0 to |roots|
        invariant State() == After(old(State()), done)
        invariant done + StartUp(d, roots[root..]) == StartUp(d, roots)
      {
        StartFirst(d, roots, root, done);
        StartRoot(d, roots[root]);
        AfterAppend(old(State()), done, RootStart(d, roots[root]));
        done := done + RootStart(d, roots[root]);
      }
      assert done == StartUp(d, roots);
    }

    method StartRoot(d: Source, root: string)
      modifies this
      ensures State() == After(old(State()), RootStart(d, root))
    {
      if root !in d.modules {
        Error([]);
      } else {
        NewScope(RootPath(root));
        PushBack(Root(root));
        AfterAppend(old(State()), [Created(RootPath(root))], [Queued(Root(root))]);
        assert [Created(RootPath(root))] + [Queued(Root(root))] == RootStart(d, root);
      }
    }
  }
}
