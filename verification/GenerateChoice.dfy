/** Which scopes the expansion creates (elab_scope.cc): said of the tests, the names and the
    ranges, not of the steps that lead there. */
module GenerateChoice {
  import opened PExprs
  import opened Scopes
  import opened ScopeElab
  import opened ScopeSteps
  import opened WorkList

  predicate Creates(ev: seq<Event>, path: Path) {
    Created(path) in ev
  }

  /** The path lies in the scope `base` or is it. */
  predicate InOrBelow(base: Path, path: Path) {
    |base| <= |path| && path[..|base|] == base
  }

  predicate Below(base: Path, path: Path) {
    |base| < |path| && path[..|base|] == base
  }

  /** Every scope created is within `base` and not `base` itself. */
  ghost predicate AllBelow(ev: seq<Event>, base: Path) {
    forall e <- ev :: e.Created? ==> Below(base, e.path)
  }

  ghost predicate AllInOrBelow(ev: seq<Event>, base: Path) {
    forall e <- ev :: e.Created? ==> InOrBelow(base, e.path)
  }

  lemma ChildBelow(base: Path, scn: Scope, ev: seq<Event>)
    requires AllInOrBelow(ev, base + [scn])
    ensures AllBelow(ev, base)
  {
    forall e | e in ev && e.Created? ensures Below(base, e.path) {
      assert InOrBelow(base + [scn], e.path);
      assert e.path[..|base|] == e.path[..|base| + 1][..|base|] == base;
    }
  }

  lemma BelowInOr(ev: seq<Event>, base: Path)
    requires AllBelow(ev, base)
    ensures AllInOrBelow(ev, base)
  {
  }

  /** Scopes within one child are not the other child. */
  lemma ChildrenApart(base: Path, a: Scope, b: Scope, ev: seq<Event>)
    requires a != b && AllInOrBelow(ev, base + [a])
    ensures !Creates(ev, base + [b])
  {
    var other := base + [b];
    assert other[|base|] == b && (base + [a])[|base|] == a;
    assert !InOrBelow(base + [a], other);
  }

  // Everything stays within its container.

  lemma {:induction false} GatesBelow(d: Source, path: Path, gates: seq<Gate>)
    requires Legal(path, d.limit)
    ensures AllBelow(ElabGates(d, path, gates), path)
    decreases Left(d, path), 2, |gates|
  {
    if gates != [] {
      GateBelow(d, path, gates[0]);
      GatesBelow(d, path, gates[1..]);
    }
  }

  lemma {:induction false} GateBelow(d: Source, path: Path, g: Gate)
    requires Legal(path, d.limit)
    ensures AllBelow(ElabGate(d, path, g), path)
    decreases Left(d, path), 1, 0
  {
    if g.mod in d.modules && Scan(path, g.mod, d.limit, 0, false) == Allowed && g.range.None? {
      InstancesBelow(d, path, g, [None]);
    }
  }

  lemma {:induction false} InstancesBelow(d: Source, path: Path, g: Gate, indices: seq<Option<int>>)
    requires CanInstantiate(d, path, g)
    ensures AllBelow(ElabInstances(d, path, g, indices), path)
    decreases Left(d, path), 0, |indices|
  {
    if indices != [] {
      InstanceBelow(d, path, g, indices[0]);
      ChildBelow(path, ModuleScope(g.mod, g.inst, indices[0]), Instance(d, path, g, indices[0]));
      InstancesBelow(d, path, g, indices[1..]);
    }
  }

  /** The steps for one instance. */
  function Instance(d: Source, path: Path, g: Gate, index: Option<int>): seq<Event>
    requires CanInstantiate(d, path, g)
  {
    var scope := path + [ModuleScope(g.mod, g.inst, index)];
    BudgetInstance(path, g.mod, g.inst, index, Mods(d), d.limit);
    [Created(scope)] + ElabModule(d, scope, g.mod)
  }

  lemma {:induction false} InstanceBelow(d: Source, path: Path, g: Gate, index: Option<int>)
    requires CanInstantiate(d, path, g)
    ensures AllInOrBelow(Instance(d, path, g, index), path + [ModuleScope(g.mod, g.inst, index)])
    decreases Left(d, path), 0, 0
  {
    var scope := path + [ModuleScope(g.mod, g.inst, index)];
    BudgetInstance(path, g.mod, g.inst, index, Mods(d), d.limit);
    GatesBelow(d, scope, d.modules[g.mod].gates);
    BelowInOr(ElabGates(d, scope, d.modules[g.mod].gates), scope);
    assert scope[..|scope|] == scope;
  }

  lemma {:induction false} SchemesBelow(d: Source, path: Path, schemes: seq<Generate>)
    requires Legal(path, d.limit) && AllFinite(d, schemes)
    ensures AllBelow(GenSchemes(d, path, schemes), path)
    decreases schemes
  {
    if schemes != [] {
      SchemeBelow(d, path, schemes[0]);
      SchemesBelow(d, path, schemes[1..]);
    }
  }

  lemma {:induction false} SchemeBelow(d: Source, path: Path, g: Generate)
    requires Legal(path, d.limit) && Finite(d, g)
    ensures AllBelow(GenScheme(d, path, g), path)
    decreases g
  {
    match g
    case Loop(line, _, init, _, _, _) =>
      var v := d.value(path, None, init);
      if v.Some? && !d.taken(path, line) {
        LoopBelow(d, path, g, v.value, d.turns(path, line));
      }
    case Condit(line, name, _, _, body) => NestedBelow(d, path, line, name, body);
    case Case(_, test, items) =>
      var v := d.value(path, None, test);
      if v.Some? {
        var choice := Pick(d, path, v.value, items, None);
        if choice.Picked? && choice.item.Some? {
          NestedBelow(d, path, choice.item.value.line, choice.item.value.name, choice.item.value.body);
        }
      }
    case Block(_, name, body) =>
      ScopeBelow(d, path, name, None, body);
      ChildBelow(path, GenBlock(name, None), GenScope(d, path, name, None, body));
  }

  lemma {:induction false} LoopBelow(d: Source, path: Path, g: Generate, v: int, n: nat)
    requires Legal(path, d.limit) && g.Loop? && Ends(d, path, g, v, n) && AllFinite(d, g.body.schemes)
    ensures AllBelow(LoopFrom(d, path, g, v, n), path)
    decreases g, n
  {
    var test := d.value(path, Some(v), g.test);
    if test.Some? && test.value != 0 {
      ScopeBelow(d, path, g.name, Some(v), g.body);
      ChildBelow(path, GenBlock(g.name, Some(v)), GenScope(d, path, g.name, Some(v), g.body));
      var next := d.value(path, Some(v), g.step);
      if next.Some? {
        LoopBelow(d, path, g, next.value, n - 1);
      }
    }
  }

  lemma {:induction false} NestedBelow(d: Source, path: Path, line: nat, name: string, body: Body)
    requires Legal(path, d.limit) && AllFinite(d, body.schemes)
    ensures AllBelow(GenNested(d, path, line, name, body), path)
    decreases body, 1
  {
    SchemesBelow(d, path, body.schemes);
    ScopeBelow(d, path, name, None, body);
    ChildBelow(path, GenBlock(name, None), GenScope(d, path, name, None, body));
  }

  lemma {:induction false} ScopeBelow(d: Source, path: Path, name: string, index: Option<int>, body: Body)
    requires Legal(path, d.limit) && AllFinite(d, body.schemes)
    ensures AllInOrBelow(GenScope(d, path, name, index, body), path + [GenBlock(name, index)])
    ensures Creates(GenScope(d, path, name, index, body), path + [GenBlock(name, index)])
    decreases body, 0
  {
    var scope := path + [GenBlock(name, index)];
    LegalBlock(path, name, index, d.limit);
    SchemesBelow(d, scope, body.schemes);
    GatesBelow(d, scope, body.gates);
    assert scope[..|scope|] == scope;
    assert GenScope(d, path, name, index, body)[0] == Created(scope);
  }

  // Conditionals.

  /** A body that gets a scope of its own, under a free name. */
  predicate Named(d: Source, path: Path, line: nat, name: string, body: Body) {
    !d.taken(path, line) && !DirectNested(name, body)
  }

  /** The test is a constant that takes the branch: not 0 for the if, 0 for the else. */
  predicate Takes(d: Source, path: Path, test: string, els: bool) {
    var v := d.value(path, None, test);
    v.Some? && (if els then v.value == 0 else v.value != 0)
  }

  /** A branch has its scope created exactly if its test takes it. */
  lemma ConditExact(d: Source, path: Path, line: nat, name: string, els: bool, test: string, body: Body)
    requires Legal(path, d.limit) && AllFinite(d, body.schemes) && Named(d, path, line, name, body)
    ensures var ev := GenScheme(d, path, Condit(line, name, els, test, body));
            && (Creates(ev, path + [GenBlock(name, None)]) <==> Takes(d, path, test, els))
            && AllInOrBelow(ev, path + [GenBlock(name, None)])
            && (Failed(path) in ev && !Takes(d, path, test, els) <==> d.value(path, None, test).None?)
  {
    ScopeBelow(d, path, name, None, body);
  }

  /** A branch without a scope of its own has its schemes expanded in place, exactly if its
      test takes it. */
  lemma DirectExact(d: Source, path: Path, line: nat, name: string, els: bool, test: string, body: Body)
    requires Legal(path, d.limit) && AllFinite(d, body.schemes)
    requires !d.taken(path, line) && DirectNested(name, body) && d.value(path, None, test).Some?
    ensures GenScheme(d, path, Condit(line, name, els, test, body)) ==
            if Takes(d, path, test, els) then GenSchemes(d, path, body.schemes) else []
  {
  }

  /** Names of the source, and bodies with declarations or gates, always get a scope. */
  lemma NamedIs(d: Source, path: Path, line: nat, name: string, body: Body)
    requires !d.taken(path, line)
    requires name == "" || name[0] != '$' || !body.plain || body.gates != [] || |body.schemes| !in {1, 2}
    ensures Named(d, path, line, name, body)
  {
  }

  /** A body under a generated name that is but an `if`, with or without its `else`, or a
      `case` is expanded in place: it adds no scope of its own. */
  lemma NestedFlat(d: Source, path: Path, line: nat, name: string, g: Generate, rest: seq<Generate>)
    requires Legal(path, d.limit) && AllFinite(d, [g] + rest) && !d.taken(path, line)
    requires name != "" && name[0] == '$'
    requires (rest == [] && (g.Case? || (g.Condit? && !g.els)))
             || (|rest| == 1 && g.Condit? && rest[0].Condit? && g.els != rest[0].els)
    ensures GenNested(d, path, line, name, Body(true, [g] + rest, [])) == GenSchemes(d, path, [g] + rest)
  {
    assert ([g] + rest)[0] == g && (|rest| == 1 ==> ([g] + rest)[1] == rest[0]);
  }

  /** Of the two branches on one constant test exactly one has its scope created: the first
      if the test is not 0, the second if it is. */
  lemma OneArm(d: Source, path: Path, g1: Generate, g2: Generate)
    requires Legal(path, d.limit) && Finite(d, g1) && Finite(d, g2)
    requires g1.Condit? && g2.Condit? && !g1.els && g2.els && g1.test == g2.test && g1.name != g2.name
    requires Named(d, path, g1.line, g1.name, g1.body) && Named(d, path, g2.line, g2.name, g2.body)
    requires d.value(path, None, g1.test).Some?
    ensures AllFinite(d, [g1, g2])
    ensures var ev, v := GenSchemes(d, path, [g1, g2]), d.value(path, None, g1.test).value;
            && (Creates(ev, path + [GenBlock(g1.name, None)]) <==> v != 0)
            && (Creates(ev, path + [GenBlock(g2.name, None)]) <==> v == 0)
  {
    assert [g1, g2][1..] == [g2] && [g2][1..] == [];
    var e1, e2 := GenScheme(d, path, g1), GenScheme(d, path, g2);
    assert GenSchemes(d, path, [g2]) == e2 + GenSchemes(d, path, []);
    assert GenSchemes(d, path, [g1, g2]) == e1 + GenSchemes(d, path, [g2]);
    ConditExact(d, path, g1.line, g1.name, false, g1.test, g1.body);
    ConditExact(d, path, g2.line, g2.name, true, g2.test, g2.body);
    ChildrenApart(path, GenBlock(g1.name, None), GenBlock(g2.name, None), e1);
    ChildrenApart(path, GenBlock(g2.name, None), GenBlock(g1.name, None), e2);
  }

  // Cases.

  /** One of the tests is a constant equal to the value. */
  predicate Fits(d: Source, path: Path, v: int, tests: seq<string>) {
    exists i | 0 <= i < |tests| :: d.value(path, None, tests[i]) == Some(v)
  }

  predicate AllConstant(d: Source, path: Path, tests: seq<string>) {
    forall i | 0 <= i < |tests| :: d.value(path, None, tests[i]).Some?
  }

  lemma {:induction false} MatchesExact(d: Source, path: Path, v: int, tests: seq<string>)
    requires AllConstant(d, path, tests)
    ensures Matches(d, path, v, tests) == Some(Fits(d, path, v, tests))
  {
    if tests != [] {
      var rest := tests[1..];
      assert AllConstant(d, path, rest) by {
        assert forall i | 0 <= i < |rest| :: rest[i] == tests[i + 1];
      }
      MatchesExact(d, path, v, rest);
      assert Fits(d, path, v, tests) <==> d.value(path, None, tests[0]) == Some(v) || Fits(d, path, v, rest) by {
        if Fits(d, path, v, rest) {
          var i :| 0 <= i < |rest| && d.value(path, None, rest[i]) == Some(v);
          assert tests[i + 1] == rest[i];
        }
        if Fits(d, path, v, tests) && d.value(path, None, tests[0]) != Some(v) {
          var i :| 0 <= i < |tests| && d.value(path, None, tests[i]) == Some(v);
          assert rest[i - 1] == tests[i];
        }
      }
    }
  }

  /** The item of the case: the first that fits, or the last default. */
  predicate IsChoice(d: Source, path: Path, v: int, items: seq<CaseItem>, k: nat) {
    && k < |items|
    && (if items[k].tests != [] then
          Fits(d, path, v, items[k].tests) && forall j | 0 <= j < k :: !Fits(d, path, v, items[j].tests)
        else
          && (forall j | 0 <= j < |items| :: !Fits(d, path, v, items[j].tests))
          && (forall j | k < j < |items| :: items[j].tests != []))
  }

  predicate NoFit(d: Source, path: Path, v: int, items: seq<CaseItem>) {
    forall j | 0 <= j < |items| :: !Fits(d, path, v, items[j].tests)
  }

  predicate TestsConstant(d: Source, path: Path, items: seq<CaseItem>) {
    forall j | 0 <= j < |items| :: AllConstant(d, path, items[j].tests)
  }

  /** With a default in reserve, the walk ends with the first item that fits, or else with
      the last default, or else with the one in reserve. */
  lemma {:induction false} PickFrom(d: Source, path: Path, v: int, items: seq<CaseItem>, reserve: Option<CaseItem>)
    requires TestsConstant(d, path, items)
    ensures Pick(d, path, v, items, reserve).Picked?
    ensures forall k: nat | IsChoice(d, path, v, items, k) ::
              Pick(d, path, v, items, reserve).item == Some(items[k])
    ensures (forall k: nat :: !IsChoice(d, path, v, items, k)) ==> Pick(d, path, v, items, reserve).item == reserve
  {
    if items != [] {
      var rest, item := items[1..], items[0];
      MatchesExact(d, path, v, item.tests);
      assert TestsConstant(d, path, rest);
      if item.tests == [] {
        PickFrom(d, path, v, rest, Some(item));
        DefaultFirst(d, path, v, items);
      } else if Fits(d, path, v, item.tests) {
        assert IsChoice(d, path, v, items, 0);
      } else {
        PickFrom(d, path, v, rest, reserve);
        OtherFirst(d, path, v, items);
      }
    }
  }

  lemma OtherFirst(d: Source, path: Path, v: int, items: seq<CaseItem>)
    requires items != [] && items[0].tests != [] && !Fits(d, path, v, items[0].tests)
    ensures !IsChoice(d, path, v, items, 0)
    ensures forall k: nat :: IsChoice(d, path, v, items[1..], k) <==> IsChoice(d, path, v, items, k + 1)
  {
    var rest := items[1..];
    assert forall j | 0 < j < |items| :: items[j] == rest[j - 1];
    forall k: nat ensures IsChoice(d, path, v, rest, k) <==> IsChoice(d, path, v, items, k + 1) {
      ChoiceShift(d, path, v, items, k);
    }
  }

  lemma ChoiceShift(d: Source, path: Path, v: int, items: seq<CaseItem>, k: nat)
    requires items != [] && !Fits(d, path, v, items[0].tests)
    ensures IsChoice(d, path, v, items[1..], k) <==> IsChoice(d, path, v, items, k + 1)
  {
    var rest := items[1..];
    assert forall j | 0 <= j < |rest| :: rest[j] == items[j + 1];
    if IsChoice(d, path, v, rest, k) {
      forall j | 0 <= j < |items| && (j < k + 1 || rest[k].tests == []) ensures !Fits(d, path, v, items[j].tests) {
        if j > 0 {
          assert items[j] == rest[j - 1];
        }
      }
      forall j | k + 1 < j < |items| && rest[k].tests == [] ensures items[j].tests != [] {
        assert items[j] == rest[j - 1];
      }
    }
    if IsChoice(d, path, v, items, k + 1) {
      assert items[k + 1] == rest[k];
      forall j | 0 <= j < |rest| && (j < k || rest[k].tests == []) ensures !Fits(d, path, v, rest[j].tests) {
        assert rest[j] == items[j + 1];
      }
      forall j | k < j < |rest| && rest[k].tests == [] ensures rest[j].tests != [] {
        assert rest[j] == items[j + 1];
      }
    }
  }

  lemma DefaultFirst(d: Source, path: Path, v: int, items: seq<CaseItem>)
    requires items != [] && items[0].tests == []
    ensures forall k: nat :: IsChoice(d, path, v, items[1..], k) <==> IsChoice(d, path, v, items, k + 1)
    ensures IsChoice(d, path, v, items, 0) <==> forall k: nat :: !IsChoice(d, path, v, items[1..], k)
  {
    var rest := items[1..];
    assert !Fits(d, path, v, items[0].tests);
    forall k: nat ensures IsChoice(d, path, v, rest, k) <==> IsChoice(d, path, v, items, k + 1) {
      ChoiceShift(d, path, v, items, k);
    }
    assert forall j | 0 < j < |items| :: items[j] == rest[j - 1];
    if !IsChoice(d, path, v, items, 0) {
      var k := SomeChoice(d, path, v, rest);
    }
  }

  /** If an item fits, or there is a default, there is a choice. */
  lemma {:induction false} SomeChoice(d: Source, path: Path, v: int, items: seq<CaseItem>) returns (k: nat)
    requires exists j :: 0 <= j < |items| && (Fits(d, path, v, items[j].tests) || items[j].tests == [])
    ensures IsChoice(d, path, v, items, k)
  {
    var first, rest := items[0], items[1..];
    if Fits(d, path, v, first.tests) {
      k := 0;
    } else {
      assert forall j | 0 < j < |items| :: items[j] == rest[j - 1];
      if exists j :: 0 <= j < |rest| && (Fits(d, path, v, rest[j].tests) || rest[j].tests == []) {
        var k' := SomeChoice(d, path, v, rest);
        ChoiceShift(d, path, v, items, k');
        k := k' + 1;
      } else {
        k := 0;
      }
    }
  }

  /** With constant tests, a case has the scope created of the first item with a test equal
      to the value, or else of the last default, and of no other. */
  lemma CaseExact(d: Source, path: Path, g: Generate, k: nat)
    requires Legal(path, d.limit) && g.Case? && Finite(d, g) && TestsConstant(d, path, g.items)
    requires d.value(path, None, g.test).Some?
    requires IsChoice(d, path, d.value(path, None, g.test).value, g.items, k)
    requires Named(d, path, g.items[k].line, g.items[k].name, g.items[k].body)
    ensures var ev := GenScheme(d, path, g);
            && Creates(ev, path + [GenBlock(g.items[k].name, None)])
            && forall name | name != g.items[k].name :: !Creates(ev, path + [GenBlock(name, None)])
  {
    var v, item := d.value(path, None, g.test).value, g.items[k];
    PickFrom(d, path, v, g.items, None);
    assert item in g.items;
    ScopeBelow(d, path, item.name, None, item.body);
    var ev := GenScheme(d, path, g);
    assert Pick(d, path, v, g.items, None) == Picked(Some(item));
    assert ev == GenNested(d, path, item.line, item.name, item.body);
    assert ev == GenScope(d, path, item.name, None, item.body);
    forall name | name != item.name ensures !Creates(ev, path + [GenBlock(name, None)]) {
      ChildrenApart(path, GenBlock(item.name, None), GenBlock(name, None), ev);
    }
  }

  /** A test that is not constant, reached before any item fits, is an error. */
  lemma {:induction false} PickStops(d: Source, path: Path, v: int, items: seq<CaseItem>, reserve: Option<CaseItem>,
                                     k: nat, i: nat)
    requires k < |items| && i < |items[k].tests| && d.value(path, None, items[k].tests[i]).None?
    requires AllConstant(d, path, items[k].tests[..i]) && !Fits(d, path, v, items[k].tests[..i])
    requires forall j | 0 <= j < k :: AllConstant(d, path, items[j].tests) && !Fits(d, path, v, items[j].tests)
    ensures Pick(d, path, v, items, reserve) == NotConstant
  {
    if k == 0 {
      MatchesStops(d, path, v, items[0].tests, i);
    } else {
      MatchesExact(d, path, v, items[0].tests);
      PickStops(d, path, v, items[1..], if items[0].tests == [] then Some(items[0]) else reserve, k - 1, i);
    }
  }

  lemma PrefixShift(d: Source, path: Path, v: int, tests: seq<string>, i: nat)
    requires 0 < i <= |tests|
    ensures AllConstant(d, path, tests[..i]) ==> AllConstant(d, path, tests[1..][..i - 1])
    ensures Fits(d, path, v, tests[1..][..i - 1]) ==> Fits(d, path, v, tests[..i])
  {
    var long, short := tests[..i], tests[1..][..i - 1];
    assert forall j | 0 <= j < |short| :: short[j] == long[j + 1];
    if Fits(d, path, v, short) {
      var j :| 0 <= j < |short| && d.value(path, None, short[j]) == Some(v);
      assert d.value(path, None, long[j + 1]) == Some(v);
    }
  }

  lemma CaseStops(d: Source, path: Path, g: Generate, k: nat, i: nat)
    requires Legal(path, d.limit) && g.Case? && Finite(d, g) && k < |g.items| && i < |g.items[k].tests|
    requires d.value(path, None, g.test).Some? && d.value(path, None, g.items[k].tests[i]).None?
    requires var v, before := d.value(path, None, g.test).value, g.items[k].tests[..i];
             && AllConstant(d, path, before) && !Fits(d, path, v, before)
             && (forall j | 0 <= j < k :: AllConstant(d, path, g.items[j].tests) && !Fits(d, path, v, g.items[j].tests))
    ensures GenScheme(d, path, g) == [Failed(path)]
  {
    PickStops(d, path, d.value(path, None, g.test).value, g.items, None, k, i);
  }

  lemma {:induction false} MatchesStops(d: Source, path: Path, v: int, tests: seq<string>, i: nat)
    requires i < |tests| && d.value(path, None, tests[i]).None?
    requires AllConstant(d, path, tests[..i]) && !Fits(d, path, v, tests[..i])
    ensures Matches(d, path, v, tests) == None
  {
    if i > 0 {
      var rest := tests[1..];
      assert tests[..i][0] == tests[0];
      PrefixShift(d, path, v, tests, i);
      MatchesStops(d, path, v, rest, i - 1);
    }
  }

  /** Without a choice nothing is done. */
  lemma CaseNone(d: Source, path: Path, g: Generate)
    requires Legal(path, d.limit) && g.Case? && Finite(d, g) && TestsConstant(d, path, g.items)
    requires d.value(path, None, g.test).Some?
    requires forall k: nat :: !IsChoice(d, path, d.value(path, None, g.test).value, g.items, k)
    ensures GenScheme(d, path, g) == []
  {
    PickFrom(d, path, d.value(path, None, g.test).value, g.items, None);
  }

  // Loops.

  /** The genvar after k turns from `v`, each with a test that is not 0. */
  function After(d: Source, path: Path, g: Generate, v: int, k: nat): Option<int>
    requires g.Loop?
    decreases k
  {
    if !Turns(d, path, g, v) then None
    else if k == 0 then Some(v)
    else
      var next := d.value(path, Some(v), g.step);
      if next.None? then None else After(d, path, g, next.value, k - 1)
  }

  /** The test takes another turn. */
  predicate Turns(d: Source, path: Path, g: Generate, v: int)
    requires g.Loop?
  {
    var test := d.value(path, Some(v), g.test);
    test.Some? && test.value != 0
  }

  /** Some turn from `v` on has the genvar value `u`. */
  ghost predicate Visits(d: Source, path: Path, g: Generate, v: int, u: int)
    requires g.Loop?
  {
    exists k: nat :: After(d, path, g, v, k) == Some(u)
  }

  /** A loop has a scope created for exactly the genvar values it takes. */
  lemma {:induction false} LoopExact(d: Source, path: Path, g: Generate, v: int, n: nat, u: int)
    requires Legal(path, d.limit) && g.Loop? && Ends(d, path, g, v, n) && AllFinite(d, g.body.schemes)
    ensures Creates(LoopFrom(d, path, g, v, n), path + [GenBlock(g.name, Some(u))]) <==> Visits(d, path, g, v, u)
    decreases n
  {
    if Turns(d, path, g, v) {
      VisitsStep(d, path, g, v, u);
      var here := GenScope(d, path, g.name, Some(v), g.body);
      ScopeBelow(d, path, g.name, Some(v), g.body);
      if u != v {
        ChildrenApart(path, GenBlock(g.name, Some(v)), GenBlock(g.name, Some(u)), here);
      }
      var next := d.value(path, Some(v), g.step);
      if next.Some? {
        LoopExact(d, path, g, next.value, n - 1, u);
        assert LoopFrom(d, path, g, v, n) == here + LoopFrom(d, path, g, next.value, n - 1);
      } else {
        assert LoopFrom(d, path, g, v, n) == here + [Failed(path)];
      }
    } else {
      forall k: nat ensures After(d, path, g, v, k) == None {
      }
    }
  }

  lemma VisitsStep(d: Source, path: Path, g: Generate, v: int, u: int)
    requires g.Loop? && Turns(d, path, g, v)
    ensures var next := d.value(path, Some(v), g.step);
            Visits(d, path, g, v, u) <==> u == v || (next.Some? && Visits(d, path, g, next.value, u))
  {
    var next := d.value(path, Some(v), g.step);
    assert After(d, path, g, v, 0) == Some(v);
    if next.Some? && Visits(d, path, g, next.value, u) {
      var k: nat :| After(d, path, g, next.value, k) == Some(u);
      assert After(d, path, g, v, k + 1) == Some(u);
    }
    if Visits(d, path, g, v, u) && u != v {
      var k: nat :| After(d, path, g, v, k) == Some(u);
      assert k != 0;
      assert After(d, path, g, next.value, k - 1) == Some(u);
    }
  }

  /** A loop scheme starts from its first value, if that is a constant and its name free. */
  lemma LoopStarts(d: Source, path: Path, g: Generate, u: int)
    requires Legal(path, d.limit) && g.Loop? && Finite(d, g)
    ensures Creates(GenScheme(d, path, g), path + [GenBlock(g.name, Some(u))]) <==>
            var v := d.value(path, None, g.init);
            v.Some? && !d.taken(path, g.line) && Visits(d, path, g, v.value, u)
  {
    var v := d.value(path, None, g.init);
    if v.Some? && !d.taken(path, g.line) {
      LoopExact(d, path, g, v.value, d.turns(path, g.line), u);
    }
  }

  /** A name that is taken is an error, and nothing else comes of the scheme: for a branch or
      an item of a case if it is chosen. */
  lemma ClashFails(d: Source, path: Path, g: Generate, k: nat)
    requires Legal(path, d.limit) && Finite(d, g)
    ensures (g.Block? || g.Loop?) && d.taken(path, g.line) ==> GenScheme(d, path, g) == [Failed(path)]
    ensures g.Condit? && Takes(d, path, g.test, g.els) && d.taken(path, g.line) ==>
              GenScheme(d, path, g) == [Failed(path)]
    ensures g.Case? && TestsConstant(d, path, g.items) && d.value(path, None, g.test).Some?
            && IsChoice(d, path, d.value(path, None, g.test).value, g.items, k) && d.taken(path, g.items[k].line) ==>
              GenScheme(d, path, g) == [Failed(path)]
  {
    if g.Case? && TestsConstant(d, path, g.items) && d.value(path, None, g.test).Some? {
      var v := d.value(path, None, g.test).value;
      PickFrom(d, path, v, g.items, None);
      if IsChoice(d, path, v, g.items, k) {
        assert Pick(d, path, v, g.items, None) == Picked(Some(g.items[k]));
      }
    }
  }

  // Blocks and contents.

  lemma BlockExact(d: Source, path: Path, line: nat, name: string, body: Body)
    requires Legal(path, d.limit) && AllFinite(d, body.schemes)
    ensures var ev := GenScheme(d, path, Block(line, name, body));
            && (Creates(ev, path + [GenBlock(name, None)]) <==> !d.taken(path, line))
            && AllInOrBelow(ev, path + [GenBlock(name, None)])
  {
    ScopeBelow(d, path, name, None, body);
  }

  /** What part of a sequence of steps another one is. */
  ghost predicate Holds(ev: seq<Event>, part: seq<Event>) {
    exists a, b :: ev == a + part + b
  }

  lemma HoldsMore(pre: seq<Event>, ev: seq<Event>, post: seq<Event>, part: seq<Event>)
    requires Holds(ev, part)
    ensures Holds(pre + ev + post, part)
  {
    var a, b :| ev == a + part + b;
    assert pre + ev + post == (pre + a) + part + (b + post);
  }

  lemma HoldsEnd(pre: seq<Event>, part: seq<Event>)
    ensures Holds(pre + part, part + [])
  {
    assert pre + part == pre + (part + []) + [];
  }

  lemma HoldsFirst(ev: seq<Event>, post: seq<Event>, part: seq<Event>)
    requires Holds(ev, part)
    ensures Holds(ev + post, part)
  {
    HoldsMore([], ev, post, part);
    assert [] + ev + post == ev + post;
  }

  lemma HoldsSecond(pre: seq<Event>, ev: seq<Event>, part: seq<Event>)
    requires Holds(ev, part)
    ensures Holds(pre + ev, part)
  {
    HoldsMore(pre, ev, [], part);
    assert pre + ev + [] == pre + ev;
  }

  /** Every gate and every scheme is expanded, whatever its neighbours do. */
  lemma {:induction false} GatesAll(d: Source, path: Path, gates: seq<Gate>, i: nat)
    requires Legal(path, d.limit) && i < |gates|
    ensures Holds(ElabGates(d, path, gates), ElabGate(d, path, gates[i]))
    decreases |gates|
  {
    var first, rest := ElabGate(d, path, gates[0]), ElabGates(d, path, gates[1..]);
    if i == 0 {
      assert first + rest == [] + first + rest;
    } else {
      GatesAll(d, path, gates[1..], i - 1);
      HoldsSecond(first, rest, ElabGate(d, path, gates[i]));
    }
  }

  lemma {:induction false} SchemesAll(d: Source, path: Path, schemes: seq<Generate>, i: nat)
    requires Legal(path, d.limit) && AllFinite(d, schemes) && i < |schemes|
    ensures Finite(d, schemes[i]) && Holds(GenSchemes(d, path, schemes), GenScheme(d, path, schemes[i]))
    decreases |schemes|
  {
    var first, rest := GenScheme(d, path, schemes[0]), GenSchemes(d, path, schemes[1..]);
    if i == 0 {
      assert first + rest == [] + first + rest;
    } else {
      SchemesAll(d, path, schemes[1..], i - 1);
      HoldsSecond(first, rest, GenScheme(d, path, schemes[i]));
    }
  }

  /** A generated scope has all of its schemes and gates expanded in it. */
  lemma ContentsExpanded(d: Source, path: Path, name: string, index: Option<int>, body: Body)
    requires Legal(path, d.limit) && AllFinite(d, body.schemes)
    ensures var scope := path + [GenBlock(name, index)];
            && Legal(scope, d.limit)
            && Holds(GenScope(d, path, name, index, body), GenSchemes(d, scope, body.schemes))
            && Holds(GenScope(d, path, name, index, body), ElabGates(d, scope, body.gates))
  {
    var scope := path + [GenBlock(name, index)];
    LegalBlock(path, name, index, d.limit);
    var a, b, c := [Created(scope)], GenSchemes(d, scope, body.schemes), ElabGates(d, scope, body.gates);
    assert a + b + c == (a + b) + c + [];
  }

  // Instances.

  /** A module that is there, under a free name, where the recursion scan allows it. */
  ghost predicate Admitted(d: Source, path: Path, g: Gate) {
    && g.mod in d.modules && g.inst != "" && !d.taken(path, g.line)
    && Separated(path, g.mod) && Count(path, g.mod) <= d.limit
  }

  /** An instance without a range has exactly its scope created in the container, exactly if
      it is admitted; with a range it is put off; what is neither a module nor a primitive,
      or is not admitted, is an error. */
  lemma GateExact(d: Source, path: Path, g: Gate)
    requires Legal(path, d.limit)
    ensures var ev := ElabGate(d, path, g);
            && (Creates(ev, path + [ModuleScope(g.mod, g.inst, None)]) <==> Admitted(d, path, g) && g.range.None?)
            && (Queued(Instances(path, g)) in ev && g.range.Some? <==> Admitted(d, path, g) && g.range.Some?)
            && (ev == [Failed(path)] <==> !Admitted(d, path, g) && !(g.mod !in d.modules && g.mod in d.primitives))
            && AllInOrBelow(ev, path + [ModuleScope(g.mod, g.inst, None)])
  {
    ScanExact(path, g.mod, d.limit);
    if Admitted(d, path, g) && g.range.None? {
      InstanceBelow(d, path, g, None);
      assert ElabInstances(d, path, g, [None][1..]) == [];
      assert ElabGate(d, path, g) == Instance(d, path, g, None) + [];
      assert ElabGate(d, path, g)[0] == Created(path + [ModuleScope(g.mod, g.inst, None)]);
      assert ElabGate(d, path, g)[1] == Queued(Generates(path + [ModuleScope(g.mod, g.inst, None)], g.mod));
    }
  }

  /** An array of instances has a scope created for exactly its indices. */
  lemma {:induction false} InstancesExact(d: Source, path: Path, g: Gate, indices: seq<Option<int>>,
                                          index: Option<int>)
    requires CanInstantiate(d, path, g)
    ensures Creates(ElabInstances(d, path, g, indices), path + [ModuleScope(g.mod, g.inst, index)]) <==>
            index in indices
    decreases |indices|
  {
    if indices != [] {
      InstanceBelow(d, path, g, indices[0]);
      InstancesExact(d, path, g, indices[1..], index);
      var first := Instance(d, path, g, indices[0]);
      assert first[0] == Created(path + [ModuleScope(g.mod, g.inst, indices[0])]);
      assert ElabInstances(d, path, g, indices) == first + ElabInstances(d, path, g, indices[1..]);
      if index != indices[0] {
        ChildrenApart(path, ModuleScope(g.mod, g.inst, indices[0]), ModuleScope(g.mod, g.inst, index), first);
      }
    }
  }

  /** Every instance has the gates of its module expanded in its scope, and its generate
      schemes queued. */
  lemma {:induction false} InstanceExpanded(d: Source, path: Path, g: Gate, indices: seq<Option<int>>, i: nat)
    requires CanInstantiate(d, path, g) && i < |indices|
    ensures var scope, ev := path + [ModuleScope(g.mod, g.inst, indices[i])], ElabInstances(d, path, g, indices);
            && Legal(scope, d.limit)
            && Queued(Generates(scope, g.mod)) in ev
            && Holds(ev, ElabGates(d, scope, d.modules[g.mod].gates))
    decreases |indices|
  {
    var scope := path + [ModuleScope(g.mod, g.inst, indices[0])];
    BudgetInstance(path, g.mod, g.inst, indices[0], Mods(d), d.limit);
    var gates, rest := ElabGates(d, scope, d.modules[g.mod].gates), ElabInstances(d, path, g, indices[1..]);
    var head := [Created(scope)] + ([Queued(Generates(scope, g.mod))] + gates);
    assert ElabInstances(d, path, g, indices) == head + rest;
    if i == 0 {
      assert head == [Created(scope), Queued(Generates(scope, g.mod))] + gates + [];
      HoldsFirst(head, rest, gates);
      assert head[1] == Queued(Generates(scope, g.mod));
    } else {
      InstanceExpanded(d, path, g, indices[1..], i - 1);
      var there := path + [ModuleScope(g.mod, g.inst, indices[i])];
      HoldsSecond(head, rest, ElabGates(d, there, d.modules[g.mod].gates));
    }
  }

  /** So has a root. */
  lemma RootExpanded(d: Source, mod: string)
    requires mod in d.modules
    ensures Legal(RootPath(mod), d.limit)
    ensures Queued(Generates(RootPath(mod), mod)) in Effects(d, Root(mod))
    ensures Holds(Effects(d, Root(mod)), ElabGates(d, RootPath(mod), d.modules[mod].gates))
  {
    LegalRoot(mod, d.limit);
    var first, gates := [Queued(Generates(RootPath(mod), mod))], ElabGates(d, RootPath(mod), d.modules[mod].gates);
    assert Effects(d, Root(mod)) == first + gates;
    assert first + gates == first + gates + [];
    assert (first + gates)[0] == Queued(Generates(RootPath(mod), mod));
  }

  /** A constant range gives an instance for every number in it, in either direction. */
  lemma RangeExact(d: Source, path: Path, g: Gate, v: int)
    requires CanInstantiate(d, path, g) && g.range.Some?
    requires d.value(path, None, g.range.value.0).Some? && d.value(path, None, g.range.value.1).Some?
    ensures var high, low := d.value(path, None, g.range.value.0).value, d.value(path, None, g.range.value.1).value;
            Creates(ElabRange(d, path, g), path + [ModuleScope(g.mod, g.inst, Some(v))]) <==>
            low <= v <= high || high <= v <= low
  {
    var high, low := d.value(path, None, g.range.value.0).value, d.value(path, None, g.range.value.1).value;
    InstancesExact(d, path, g, Indices(high, low), Some(v));
    IndicesExact(high, low);
  }

  /** Without a constant high end there is a single instance; without a constant low end
      that is an error. */
  lemma RangeOpen(d: Source, path: Path, g: Gate, index: Option<int>)
    requires CanInstantiate(d, path, g) && g.range.Some?
    ensures d.value(path, None, g.range.value.0).None? ==>
              (Creates(ElabRange(d, path, g), path + [ModuleScope(g.mod, g.inst, index)]) <==> index == None)
    ensures d.value(path, None, g.range.value.0).Some? && d.value(path, None, g.range.value.1).None? ==>
              ElabRange(d, path, g) == [Failed(path)]
  {
    InstancesExact(d, path, g, [None], index);
  }

  // Whole runs.

  /** The item is one that can be run, and all that it does stands in the steps. */
  ghost predicate Done(d: Source, ev: seq<Event>, item: Item) {
    ValidItem(d, item) && Holds(ev, [Ran(item)] + Effects(d, item))
  }

  ghost predicate AllDone(d: Source, ev: seq<Event>) {
    forall item <- Runs(ev) :: Done(d, ev, item)
  }

  lemma JoinDone(d: Source, a: seq<Event>, b: seq<Event>)
    requires AllDone(d, a) && AllDone(d, b)
    ensures AllDone(d, a + b)
  {
    AppendRuns(a, b);
    forall item <- Runs(a + b) ensures Done(d, a + b, item) {
      if item in Runs(a) {
        HoldsFirst(a, b, [Ran(item)] + Effects(d, item));
      } else {
        assert item in Runs(b);
        HoldsSecond(a, b, [Ran(item)] + Effects(d, item));
      }
    }
  }

  /** The steps of one item, which are sane and so run nothing themselves. */
  lemma ItemDone(d: Source, item: Item)
    requires ValidItem(d, item)
    ensures AllDone(d, [Ran(item)] + Effects(d, item))
  {
    EffectsKeep(d, item);
    SaneCounts(d, Effects(d, item), Rank(d, item) - 1);
    AppendRuns([Ran(item)], Effects(d, item));
    assert [Ran(item)][1..] == [];
    assert Runs([Ran(item)] + Effects(d, item)) == [item];
    HoldsEnd([], [Ran(item)] + Effects(d, item));
    assert [] + ([Ran(item)] + Effects(d, item)) == [Ran(item)] + Effects(d, item);
  }

  lemma {:induction false} RunDone(d: Source, items: seq<Item>)
    requires Ready(d, items)
    ensures AllDone(d, RunAll(d, items))
  {
    if items != [] {
      ItemDone(d, items[0]);
      RunDone(d, items[1..]);
      JoinDone(d, [Ran(items[0])] + Effects(d, items[0]), RunAll(d, items[1..]));
    }
  }

  lemma QueuedDone(d: Source, item: Item)
    ensures AllDone(d, [Queued(item)])
  {
    assert [Queued(item)][1..] == [];
  }

  lemma RoundDone(d: Source, list: seq<Item>)
    requires Ready(d, list)
    ensures AllDone(d, Round(d, list))
  {
    RunAllAppend(d, list, [TopDefparams]);
    QueuedDone(d, TopDefparams);
    RunDone(d, list + [TopDefparams]);
    JoinDone(d, [Queued(TopDefparams)], RunAll(d, list + [TopDefparams]));
  }

  lemma {:induction false} TraceDone(d: Source, list: seq<Item>, r: nat)
    requires Waiting(d, list, r)
    ensures AllDone(d, Trace(d, list, r))
    decreases r
  {
    if list != [] {
      RoundDone(d, list);
      TailDone(d, list, r);
      JoinDone(d, Round(d, list), Tail(d, list, r));
    }
  }

  lemma {:induction false} TailDone(d: Source, list: seq<Item>, r: nat)
    requires Waiting(d, list, r)
    ensures AllDone(d, Tail(d, list, r))
    decreases r, 0
  {
    if Next(d, list) != [] {
      NextWaits(d, list, r);
      QueuedDone(d, LaterDefparams);
      TraceDone(d, Next(d, list) + [LaterDefparams], r - 1);
      JoinDone(d, [Queued(LaterDefparams)], Trace(d, Next(d, list) + [LaterDefparams], r - 1));
    }
  }

  /** In the whole elaboration, every item that is run takes all of its steps: those of the
      generate schemes of a module, those of an array put off, those of a root. */
  lemma ElaborationDone(d: Source, roots: seq<string>)
    ensures AllDone(d, Elaboration(d, roots))
  {
    StartUpReady(d, roots);
    var list := Queue(StartUp(d, roots));
    TraceDone(d, list, RoundLimit(d));
    JoinDone(d, StartUp(d, roots), Trace(d, list, RoundLimit(d)));
  }

  /** A root gets its scope exactly if there is such a module, and its turn in the list. */
  lemma RootExact(d: Source, roots: seq<string>, mod: string)
    ensures Creates(StartUp(d, roots), RootPath(mod)) <==> mod in roots && mod in d.modules
    ensures mod in roots && mod in d.modules ==> Root(mod) in Runs(Elaboration(d, roots))
    ensures mod in roots && mod !in d.modules ==> Failed([]) in StartUp(d, roots)
  {
    StartExact(d, roots, mod);
    if mod in roots && mod in d.modules {
      StartUpReady(d, roots);
      AppendQueue(StartUp(d, roots), Trace(d, Queue(StartUp(d, roots)), RoundLimit(d)));
      ElaborationConserves(d, roots);
    }
  }

  lemma {:induction false} StartExact(d: Source, roots: seq<string>, mod: string)
    ensures Creates(StartUp(d, roots), RootPath(mod)) <==> mod in roots && mod in d.modules
    ensures mod in roots && mod in d.modules ==> Root(mod) in Queue(StartUp(d, roots))
    ensures mod in roots && mod !in d.modules ==> Failed([]) in StartUp(d, roots)
  {
    if roots != [] {
      var first, rest := RootStart(d, roots[0]), StartUp(d, roots[1..]);
      StartExact(d, roots[1..], mod);
      AppendQueue(first, rest);
      if roots[0] in d.modules {
        assert first[1..] == [Queued(Root(roots[0]))] && first[1..][1..] == [];
        assert Queue(first) == [Root(roots[0])];
        assert RootPath(mod) == RootPath(roots[0]) ==> RootPath(mod)[0].mod == RootPath(roots[0])[0].mod;
        assert first[0] == Created(RootPath(roots[0]));
      } else {
        assert first[0] == Failed([]);
      }
    }
  }

  /** What a module has in its generate schemes is expanded in each of its scopes: every
      scheme, once the scope's turn has come. */
  lemma SchemeDone(d: Source, roots: seq<string>, path: Path, mod: string, i: nat)
    requires Generates(path, mod) in Runs(Elaboration(d, roots))
    ensures ValidItem(d, Generates(path, mod)) && AllFinite(d, d.modules[mod].schemes)
    ensures i < |d.modules[mod].schemes| ==>
              && Finite(d, d.modules[mod].schemes[i])
              && Holds(Elaboration(d, roots), GenScheme(d, path, d.modules[mod].schemes[i]))
  {
    ElaborationDone(d, roots);
    var schemes := d.modules[mod].schemes;
    assert Done(d, Elaboration(d, roots), Generates(path, mod));
    if i < |schemes| {
      SchemesAll(d, path, schemes, i);
      HoldsSecond([Ran(Generates(path, mod))], GenSchemes(d, path, schemes), GenScheme(d, path, schemes[i]));
      HoldsWithin(Elaboration(d, roots), [Ran(Generates(path, mod))] + GenSchemes(d, path, schemes),
                  GenScheme(d, path, schemes[i]));
    }
  }

  lemma HoldsWithin(ev: seq<Event>, mid: seq<Event>, part: seq<Event>)
    requires Holds(ev, mid) && Holds(mid, part)
    ensures Holds(ev, part)
  {
    var a, b :| ev == a + mid + b;
    HoldsMore(a, mid, b, part);
  }
}
