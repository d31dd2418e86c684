/** What every step of scope elaboration keeps: paths stay legal, queued work can be
    done, and work only ever queues work of lower rank. */
module ScopeSteps {
  import opened PExprs
  import opened Scopes
  import opened ScopeElab

  ghost predicate ValidItem(d: Source, item: Item) {
    match item
    case Root(mod) => mod in d.modules
    case Generates(path, mod) =>
      Legal(path, d.limit) && mod in d.modules && path != [] && Instantiates(path[|path| - 1], mod)
    case Instances(path, g) => CanInstantiate(d, path, g)
    case TopDefparams => true
    case LaterDefparams => true
  }

  /** The bound on the module scopes of a path. */
  function Capacity(d: Source): nat {
    Times(|Mods(d)|, d.limit + 1)
  }

  function Rank(d: Source, item: Item): int {
    match item
    case Root(_) => 2 * Capacity(d)
    case Generates(path, _) => 2 * Left(d, path) + 1
    case Instances(path, _) => 2 * Left(d, path)
    case TopDefparams => 0
    case LaterDefparams => 0
  }

  /** A step that creates legal paths only, and queues possible work of rank at most `r`. */
  ghost predicate SaneEvent(d: Source, e: Event, r: int) {
    match e
    case Created(path) => Legal(path, d.limit)
    case Queued(item) => ValidItem(d, item) && 0 <= Rank(d, item) <= r && !item.TopDefparams? && !item.LaterDefparams?
    case Failed(_) => true
    case Ran(_) => false
  }

  ghost predicate Sane(d: Source, ev: seq<Event>, r: int) {
    forall e <- ev :: SaneEvent(d, e, r)
  }

  /** The creation of a module scope queues its generate schemes at once. */
  predicate Followed(ev: seq<Event>) {
    forall i | 0 <= i < |ev| && ev[i].Created? && ev[i].path != [] && ev[i].path[|ev[i].path| - 1].ModuleScope? ::
      i + 1 < |ev| && ev[i + 1] == Queued(Generates(ev[i].path, ev[i].path[|ev[i].path| - 1].mod))
  }

  ghost predicate Keeps(d: Source, ev: seq<Event>, r: int) {
    Sane(d, ev, r) && Followed(ev)
  }

  lemma FollowedAppend(a: seq<Event>, b: seq<Event>)
    requires Followed(a) && Followed(b)
    ensures Followed(a + b)
  {
    var ev := a + b;
    forall i | 0 <= i < |ev| && ev[i].Created? && ev[i].path != [] && ev[i].path[|ev[i].path| - 1].ModuleScope?
      ensures i + 1 < |ev| && ev[i + 1] == Queued(Generates(ev[i].path, ev[i].path[|ev[i].path| - 1].mod))
    {
      assert if i < |a| then ev[i] == a[i] && ev[i + 1] == a[i + 1]
             else ev[i] == b[i - |a|] && ev[i + 1] == b[i + 1 - |a|];
    }
  }

  lemma KeepsAppend(d: Source, a: seq<Event>, b: seq<Event>, r: int)
    requires Keeps(d, a, r) && Keeps(d, b, r)
    ensures Keeps(d, a + b, r)
  {
    FollowedAppend(a, b);
  }

  lemma KeepsMore(d: Source, ev: seq<Event>, r: int, r': int)
    requires Keeps(d, ev, r) && r <= r'
    ensures Keeps(d, ev, r')
  {
    forall e <- ev ensures SaneEvent(d, e, r') {
      assert SaneEvent(d, e, r);
    }
  }

  lemma {:induction false} ModuleKeeps(d: Source, path: Path, mod: string)
    requires Legal(path, d.limit) && mod in d.modules && path != [] && Instantiates(path[|path| - 1], mod)
    ensures Keeps(d, ElabModule(d, path, mod), 2 * Left(d, path) + 1)
    decreases Left(d, path), 3, 0
  {
    GatesKeep(d, path, d.modules[mod].gates);
    var r := 2 * Left(d, path);
    DepthBound(path, Mods(d), d.limit);
    KeepsMore(d, ElabGates(d, path, d.modules[mod].gates), r, r + 1);
    KeepsAppend(d, [Queued(Generates(path, mod))], ElabGates(d, path, d.modules[mod].gates), r + 1);
  }

  lemma {:induction false} GatesKeep(d: Source, path: Path, gates: seq<Gate>)
    requires Legal(path, d.limit)
    ensures Keeps(d, ElabGates(d, path, gates), 2 * Left(d, path))
    decreases Left(d, path), 2, |gates|
  {
    if gates != [] {
      GateKeeps(d, path, gates[0]);
      GatesKeep(d, path, gates[1..]);
      KeepsAppend(d, ElabGate(d, path, gates[0]), ElabGates(d, path, gates[1..]), 2 * Left(d, path));
    }
  }

  lemma {:induction false} GateKeeps(d: Source, path: Path, g: Gate)
    requires Legal(path, d.limit)
    ensures Keeps(d, ElabGate(d, path, g), 2 * Left(d, path))
    decreases Left(d, path), 1, 0
  {
    DepthBound(path, Mods(d), d.limit);
    if g.mod in d.modules && Scan(path, g.mod, d.limit, 0, false) == Allowed && g.range.None? {
      InstancesKeep(d, path, g, [None]);
      KeepsMore(d, ElabInstances(d, path, g, [None]), 2 * Left(d, path) - 1, 2 * Left(d, path));
    }
  }

  lemma {:induction false} InstancesKeep(d: Source, path: Path, g: Gate, indices: seq<Option<int>>)
    requires CanInstantiate(d, path, g)
    ensures Keeps(d, ElabInstances(d, path, g, indices), 2 * Left(d, path) - 1)
    decreases Left(d, path), 0, |indices|
  {
    if indices != [] {
      var scope := path + [ModuleScope(g.mod, g.inst, indices[0])];
      BudgetInstance(path, g.mod, g.inst, indices[0], Mods(d), d.limit);
      ModuleKeeps(d, scope, g.mod);
      InstancesKeep(d, path, g, indices[1..]);
      var r := 2 * Left(d, path) - 1;
      var ev := ElabModule(d, scope, g.mod);
      CreationKeeps(d, scope, g.mod, r);
      KeepsAppend(d, [Created(scope)] + ev, ElabInstances(d, path, g, indices[1..]), r);
    }
  }

  lemma CreationKeeps(d: Source, scope: Path, mod: string, r: int)
    requires Legal(scope, d.limit) && mod in d.modules && scope != [] && Instantiates(scope[|scope| - 1], mod)
    requires Keeps(d, ElabModule(d, scope, mod), r)
    ensures Keeps(d, [Created(scope)] + ElabModule(d, scope, mod), r)
  {
    var rest := ElabModule(d, scope, mod);
    var ev := [Created(scope)] + rest;
    assert rest[0] == Queued(Generates(scope, mod));
    forall i | 0 <= i < |ev| && ev[i].Created? && ev[i].path != [] && ev[i].path[|ev[i].path| - 1].ModuleScope?
      ensures i + 1 < |ev| && ev[i + 1] == Queued(Generates(ev[i].path, ev[i].path[|ev[i].path| - 1].mod))
    {
      if i > 0 {
        assert ev[i] == rest[i - 1] && ev[i + 1] == rest[i];
      }
    }
  }

  lemma {:induction false} SchemesKeep(d: Source, path: Path, schemes: seq<Generate>)
    requires Legal(path, d.limit) && AllFinite(d, schemes)
    ensures Keeps(d, GenSchemes(d, path, schemes), 2 * Left(d, path))
    decreases schemes
  {
    if schemes != [] {
      SchemeKeeps(d, path, schemes[0]);
      SchemesKeep(d, path, schemes[1..]);
      KeepsAppend(d, GenScheme(d, path, schemes[0]), GenSchemes(d, path, schemes[1..]), 2 * Left(d, path));
    }
  }

  lemma {:induction false} SchemeKeeps(d: Source, path: Path, g: Generate)
    requires Legal(path, d.limit) && Finite(d, g)
    ensures Keeps(d, GenScheme(d, path, g), 2 * Left(d, path))
    decreases g
  {
    match g
    case Loop(line, _, init, _, _, _) =>
      var v := d.value(path, None, init);
      if v.Some? && !d.taken(path, line) {
        LoopKeeps(d, path, g, v.value, d.turns(path, line));
      }
    case Condit(line, name, _, _, body) => NestedKeeps(d, path, line, name, body);
    case Case(_, test, items) =>
      var v := d.value(path, None, test);
      if v.Some? {
        var choice := Pick(d, path, v.value, items, None);
        if choice.Picked? && choice.item.Some? {
          var item := choice.item.value;
          NestedKeeps(d, path, item.line, item.name, item.body);
        }
      }
    case Block(_, name, body) => ScopeKeeps(d, path, name, None, body);
  }

  lemma {:induction false} LoopKeeps(d: Source, path: Path, g: Generate, v: int, n: nat)
    requires Legal(path, d.limit) && g.Loop? && Ends(d, path, g, v, n) && AllFinite(d, g.body.schemes)
    ensures Keeps(d, LoopFrom(d, path, g, v, n), 2 * Left(d, path))
    decreases g, n
  {
    var test := d.value(path, Some(v), g.test);
    if test.Some? && test.value != 0 {
      ScopeKeeps(d, path, g.name, Some(v), g.body);
      var next := d.value(path, Some(v), g.step);
      if next.Some? {
        LoopKeeps(d, path, g, next.value, n - 1);
      }
      KeepsAppend(d, GenScope(d, path, g.name, Some(v), g.body),
        if next.None? then [Failed(path)] else LoopFrom(d, path, g, next.value, n - 1), 2 * Left(d, path));
    }
  }

  lemma {:induction false} NestedKeeps(d: Source, path: Path, line: nat, name: string, body: Body)
    requires Legal(path, d.limit) && AllFinite(d, body.schemes)
    ensures Keeps(d, GenNested(d, path, line, name, body), 2 * Left(d, path))
    decreases body, 1
  {
    SchemesKeep(d, path, body.schemes);
    ScopeKeeps(d, path, name, None, body);
  }

  lemma {:induction false} ScopeKeeps(d: Source, path: Path, name: string, index: Option<int>, body: Body)
    requires Legal(path, d.limit) && AllFinite(d, body.schemes)
    ensures Keeps(d, GenScope(d, path, name, index, body), 2 * Left(d, path))
    decreases body, 0
  {
    var scope, r := path + [GenBlock(name, index)], 2 * Left(d, path);
    BudgetBlock(path, name, index, Mods(d), d.limit);
    SchemesKeep(d, scope, body.schemes);
    GatesKeep(d, scope, body.gates);
    KeepsAppend(d, [Created(scope)], GenSchemes(d, scope, body.schemes), r);
    KeepsAppend(d, [Created(scope)] + GenSchemes(d, scope, body.schemes), ElabGates(d, scope, body.gates), r);
  }

  /** What one work item does. The defparam items only set parameters. */
  function Effects(d: Source, item: Item): seq<Event>
    requires ValidItem(d, item)
  {
    match item
    case Root(mod) => LegalRoot(mod, d.limit); ElabModule(d, RootPath(mod), mod)
    case Generates(path, mod) => GenSchemes(d, path, d.modules[mod].schemes)
    case Instances(path, g) => ElabRange(d, path, g)
    case TopDefparams => []
    case LaterDefparams => []
  }

  /** A work item queues only work of lower rank than its own. */
  lemma EffectsKeep(d: Source, item: Item)
    requires ValidItem(d, item)
    ensures Keeps(d, Effects(d, item), Rank(d, item) - 1)
  {
    match item
    case Root(mod) =>
      LegalRoot(mod, d.limit);
      ModuleKeeps(d, RootPath(mod), mod);
      var path := RootPath(mod);
      assert path[..|path| - 1] == [] && Modules([], Mods(d)) == 0;
      assert path[|path| - 1].mod in Mods(d);
      assert Left(d, path) == Capacity(d) - 1;
    case Generates(path, mod) => SchemesKeep(d, path, d.modules[mod].schemes);
    case Instances(path, g) =>
      InstancesKeep(d, path, g, [None]);
      if g.range.Some? {
        var msb, lsb := d.value(path, None, g.range.value.0), d.value(path, None, g.range.value.1);
        if msb.Some? && lsb.Some? {
          InstancesKeep(d, path, g, Indices(msb.value, lsb.value));
        }
      }
    case TopDefparams =>
    case LaterDefparams =>
  }

  /** The indices of an array are distinct, and run over its range from the low end. */
  lemma IndicesExact(high: int, low: int)
    ensures var ix := Indices(high, low);
            && (forall i, j | 0 <= i < j < |ix| :: ix[i] != ix[j])
            && (forall v: int :: Some(v) in ix <==> (low <= v <= high || high <= v <= low))
            && ix[0] == Some(low) && ix[|ix| - 1] == Some(high)
  {
    var ix := Indices(high, low);
    forall v: int ensures Some(v) in ix <==> (low <= v <= high || high <= v <= low) {
      if low <= v <= high && low < high {
        assert ix[v - low] == Some(v);
      } else if high <= v <= low {
        assert ix[low - v] == Some(v);
      }
    }
  }
}
