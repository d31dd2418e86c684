/** What the elaboration of scopes does, as the sequence of its visible steps
    (elab_scope.cc): scopes created, work queued, errors counted. */
module ScopeElab {
  import opened PExprs
  import opened Scopes

  /** An instantiation. Its range is evaluated only after it was queued. */
  datatype Gate = Gate(line: nat, mod: string, inst: string, range: Option<(string, string)>)

  /** `plain` tells that a body declares nothing but generate schemes and gates. */
  datatype Body = Body(plain: bool, schemes: seq<Generate>, gates: seq<Gate>)

  datatype CaseItem = CaseItem(line: nat, name: string, tests: seq<string>, body: Body)

  datatype Generate =
    | Loop(line: nat, name: string, init: string, test: string, step: string, body: Body)
    | Condit(line: nat, name: string, els: bool, test: string, body: Body)
    | Case(line: nat, test: string, items: seq<CaseItem>)
    | Block(line: nat, name: string, body: Body)

  datatype Module = Module(schemes: seq<Generate>, gates: seq<Gate>)

  /** The modules there are, and what is decided elsewhere: the constant an expression
      has in a scope (with a genvar set or not), whether a source line finds its name
      taken there, and how many turns a generate loop takes. */
  datatype Program = Program(
    modules: map<string, Module>,
    primitives: set<string>,
    limit: nat,
    value: (Path, Option<int>, string) -> Option<int>,
    taken: (Path, nat) -> bool,
    turns: (Path, nat) -> nat)

  datatype Item =
    | Root(mod: string)
    | Generates(path: Path, mod: string)
    | Instances(path: Path, gate: Gate)
    | TopDefparams
    | LaterDefparams

  datatype Event = Created(path: Path) | Queued(item: Item) | Failed(path: Path) | Ran(item: Item)

  /** The loop that starts at `v` is over within `n` turns. */
  predicate Ends(d: Program, path: Path, g: Generate, v: int, n: nat)
    requires g.Loop?
    decreases n
  {
    var test := d.value(path, Some(v), g.test);
    test.None? || test.value == 0
    || (n > 0
        && var next := d.value(path, Some(v), g.step);
        (next.Some? ==> Ends(d, path, g, next.value, n - 1)))
  }

  /** The loop is over in every scope in which it can start. */
  ghost predicate LoopEnds(d: Program, g: Generate)
    requires g.Loop?
  {
    forall path: Path | d.value(path, None, g.init).Some? ::
      Ends(d, path, g, d.value(path, None, g.init).value, d.turns(path, g.line))
  }

  /** Every loop within a generate scheme is finite. */
  ghost predicate Finite(d: Program, g: Generate)
    decreases g
  {
    match g
    case Loop(_, _, _, _, _, body) => LoopEnds(d, g) && AllFinite(d, body.schemes)
    case Condit(_, _, _, _, body) => AllFinite(d, body.schemes)
    case Case(_, _, items) => forall item <- items :: AllFinite(d, item.body.schemes)
    case Block(_, _, body) => AllFinite(d, body.schemes)
  }

  ghost predicate AllFinite(d: Program, schemes: seq<Generate>)
    decreases schemes
  {
    schemes == [] || (Finite(d, schemes[0]) && AllFinite(d, schemes[1..]))
  }

  ghost predicate FiniteLoops(d: Program) {
    forall mod <- d.modules :: AllFinite(d, d.modules[mod].schemes)
  }

  /** A program each of whose generate loops is finite. */
  type Source = d: Program | FiniteLoops(d)
    witness Program(map[], {}, 0, (path, genvar, e) => None, (path, line) => false, (path, line) => 0)

  function RootPath(mod: string): Path {
    [ModuleScope(mod, mod, None)]
  }

  // Module instances.

  /** The indices of an instance array, from its low end. */
  function Indices(high: int, low: int): seq<Option<int>> {
    var count := if high > low then high - low + 1 else low - high + 1;
    seq(count, idx requires 0 <= idx < count => Some(if low < high then low + idx else low - idx))
  }

  function Mods(d: Source): set<string> {
    d.modules.Keys
  }

  ghost predicate CanInstantiate(d: Source, path: Path, g: Gate) {
    Legal(path, d.limit) && g.mod in d.modules && Scan(path, g.mod, d.limit, 0, false) == Allowed
  }

  function Left(d: Source, path: Path): int {
    Budget(path, Mods(d), d.limit)
  }

  /** A module elaborated in its scope: its generate schemes are put off. */
  function ElabModule(d: Source, path: Path, mod: string): seq<Event>
    requires Legal(path, d.limit) && mod in d.modules
    decreases Left(d, path), 3, 0
  {
    [Queued(Generates(path, mod))] + ElabGates(d, path, d.modules[mod].gates)
  }

  function ElabGates(d: Source, path: Path, gates: seq<Gate>): seq<Event>
    requires Legal(path, d.limit)
    decreases Left(d, path), 2, |gates|
  {
    if gates == [] then [] else ElabGate(d, path, gates[0]) + ElabGates(d, path, gates[1..])
  }

  function ElabGate(d: Source, path: Path, g: Gate): seq<Event>
    requires Legal(path, d.limit)
    decreases Left(d, path), 1, 0
  {
    if g.mod !in d.modules then (if g.mod in d.primitives then [] else [Failed(path)])
    else if g.inst == "" || d.taken(path, g.line) then [Failed(path)]
    else if Scan(path, g.mod, d.limit, 0, false) != Allowed then [Failed(path)]
    else if g.range.Some? then [Queued(Instances(path, g))]
    else ElabInstances(d, path, g, [None])
  }

  function ElabInstances(d: Source, path: Path, g: Gate, indices: seq<Option<int>>): seq<Event>
    requires CanInstantiate(d, path, g)
    decreases Left(d, path), 0, |indices|
  {
    if indices == [] then []
    else
      var scope := path + [ModuleScope(g.mod, g.inst, indices[0])];
      BudgetInstance(path, g.mod, g.inst, indices[0], Mods(d), d.limit);
      [Created(scope)] + ElabModule(d, scope, g.mod) + ElabInstances(d, path, g, indices[1..])
  }

  /** A range that is not constant makes a single instance. */
  function ElabRange(d: Source, path: Path, g: Gate): seq<Event>
    requires CanInstantiate(d, path, g)
  {
    if g.range.None? then ElabInstances(d, path, g, [None])
    else
      var msb, lsb := d.value(path, None, g.range.value.0), d.value(path, None, g.range.value.1);
      if msb.None? then ElabInstances(d, path, g, [None])
      else if lsb.None? then [Failed(path)]
      else ElabInstances(d, path, g, Indices(msb.value, lsb.value))
  }

  // Generate schemes.

  predicate Conditional(g: Generate) {
    g.Condit? && !g.els
  }

  /** A nameless body that holds nothing but one conditional is not given a scope. */
  predicate DirectNested(name: string, body: Body) {
    && name != "" && name[0] == '$' && body.plain && body.gates == []
    && ((|body.schemes| == 1 && (Conditional(body.schemes[0]) || body.schemes[0].Case?))
        || (|body.schemes| == 2
            && body.schemes[0].Condit? && body.schemes[1].Condit?
            && body.schemes[0].els != body.schemes[1].els))
  }

  function GenSchemes(d: Source, path: Path, schemes: seq<Generate>): seq<Event>
    requires Legal(path, d.limit) && AllFinite(d, schemes)
    decreases schemes
  {
    if schemes == [] then [] else GenScheme(d, path, schemes[0]) + GenSchemes(d, path, schemes[1..])
  }

  function GenScheme(d: Source, path: Path, g: Generate): seq<Event>
    requires Legal(path, d.limit) && Finite(d, g)
    decreases g
  {
    match g
    case Loop(line, name, init, _, _, body) =>
      var v := d.value(path, None, init);
      if v.None? || d.taken(path, line) then [Failed(path)]
      else LoopFrom(d, path, g, v.value, d.turns(path, line))
    case Condit(line, name, els, test, body) =>
      var v := d.value(path, None, test);
      if v.None? then [Failed(path)]
      else if (v.value == 0) != els then []
      else GenNested(d, path, line, name, body)
    case Case(line, test, items) =>
      var v := d.value(path, None, test);
      if v.None? then [Failed(path)]
      else
        var choice := Pick(d, path, v.value, items, None);
        if choice.NotConstant? then [Failed(path)]
        else if choice.item.None? then []
        else GenNested(d, path, choice.item.value.line, choice.item.value.name, choice.item.value.body)
    case Block(line, name, body) =>
      if d.taken(path, line) then [Failed(path)] else GenScope(d, path, name, None, body)
  }

  /** The turns of a generate loop from the genvar value `v` on. */
  function LoopFrom(d: Source, path: Path, g: Generate, v: int, n: nat): seq<Event>
    requires Legal(path, d.limit) && g.Loop? && Ends(d, path, g, v, n) && AllFinite(d, g.body.schemes)
    decreases g, n
  {
    var test := d.value(path, Some(v), g.test);
    if test.None? then [Failed(path)]
    else if test.value == 0 then []
    else
      var next := d.value(path, Some(v), g.step);
      GenScope(d, path, g.name, Some(v), g.body)
      + if next.None? then [Failed(path)] else LoopFrom(d, path, g, next.value, n - 1)
  }

  function GenNested(d: Source, path: Path, line: nat, name: string, body: Body): seq<Event>
    requires Legal(path, d.limit) && AllFinite(d, body.schemes)
    decreases body, 1
  {
    if d.taken(path, line) then [Failed(path)]
    else if DirectNested(name, body) then GenSchemes(d, path, body.schemes)
    else GenScope(d, path, name, None, body)
  }

  function GenScope(d: Source, path: Path, name: string, index: Option<int>, body: Body): seq<Event>
    requires Legal(path, d.limit) && AllFinite(d, body.schemes)
    decreases body, 0
  {
    var scope := path + [GenBlock(name, index)];
    LegalBlock(path, name, index, d.limit);
    [Created(scope)] + GenSchemes(d, scope, body.schemes) + ElabGates(d, scope, body.gates)
  }

  datatype Choice = NotConstant | Picked(item: Option<CaseItem>)

  /** The first item with a matching test, or else the last default seen. */
  function Pick(d: Source, path: Path, v: int, items: seq<CaseItem>, default_: Option<CaseItem>): (r: Choice)
    ensures r.Picked? && r.item.Some? ==> r.item == default_ || r.item.value in items
  {
    if items == [] then Picked(default_)
    else if items[0].tests == [] then Pick(d, path, v, items[1..], Some(items[0]))
    else
      match Matches(d, path, v, items[0].tests)
      case None => NotConstant
      case Some(true) => Picked(Some(items[0]))
      case Some(false) => Pick(d, path, v, items[1..], default_)
  }

  function Matches(d: Source, path: Path, v: int, tests: seq<string>): Option<bool> {
    if tests == [] then Some(false)
    else
      var item := d.value(path, None, tests[0]);
      if item.None? then None
      else if item.value == v then Some(true)
      else Matches(d, path, v, tests[1..])
  }
}
