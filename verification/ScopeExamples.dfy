/** A program of finite generate loops, to which all results on scopes apply: one loop
    counts up and one counts down in the same scope, and expressions use the genvar. */
module ScopeExamples {
  import opened PExprs
  import opened Scopes
  import opened ScopeElab
  import opened WorkList
  import opened WorkOrder

  const LEAF := Body(false, [], [])
  const UP := Loop(1, "up", "0", "i<2", "i+1", LEAF)
  const DOWN := Loop(2, "down", "1", "i>=0", "i-1", LEAF)

  /** The constant an expression has, in any scope. */
  function Constant(path: Path, genvar: Option<int>, e: string): Option<int> {
    if e == "0" then Some(0)
    else if e == "1" then Some(1)
    else if genvar.None? then None
    else if e == "i" then genvar
    else if e == "i+1" then Some(genvar.value + 1)
    else if e == "i-1" then Some(genvar.value - 1)
    else if e == "i<2" then Some(if genvar.value < 2 then 1 else 0)
    else if e == "i>=0" then Some(if genvar.value >= 0 then 1 else 0)
    else None
  }

  function TwoLoops(): Program {
    Program(map["top" := Module([UP, DOWN], [])], {}, 10, Constant, (path, line) => false, (path, line) => 2)
  }

  lemma LoopsFinite()
    ensures FiniteLoops(TwoLoops())
  {
    var d := TwoLoops();
    forall path: Path ensures Ends(d, path, UP, 0, 2) && Ends(d, path, DOWN, 1, 2) {
      assert Ends(d, path, UP, 2, 0) && Ends(d, path, UP, 1, 1);
      assert Ends(d, path, DOWN, -1, 0) && Ends(d, path, DOWN, 0, 1);
    }
    assert LoopEnds(d, UP) && LoopEnds(d, DOWN);
    assert AllFinite(d, LEAF.schemes) && Finite(d, UP) && Finite(d, DOWN);
    assert [DOWN][1..] == [] && AllFinite(d, [DOWN]);
    assert [UP, DOWN][1..] == [DOWN] && AllFinite(d, [UP, DOWN]);
  }

  ghost function Example(): (d: Source)
    ensures d == TwoLoops() && AllFinite(d, [UP, DOWN])
  {
    LoopsFinite();
    assert TwoLoops().modules["top"].schemes == [UP, DOWN];
    TwoLoops()
  }

  function Turn(path: Path, name: string, genvar: int): Event {
    Created(path + [GenBlock(name, Some(genvar))])
  }

  lemma TurnOnly(d: Source, path: Path, name: string, genvar: int)
    requires Legal(path, d.limit)
    ensures AllFinite(d, LEAF.schemes) && GenScope(d, path, name, Some(genvar), LEAF) == [Turn(path, name, genvar)]
  {
    var scope := path + [GenBlock(name, Some(genvar))];
    LegalBlock(path, name, Some(genvar), d.limit);
    assert GenSchemes(d, scope, []) == [] && ElabGates(d, scope, []) == [];
  }

  /** Both loops take their turns, in their own directions. */
  lemma {:induction false} LoopsRun(path: Path)
    requires Legal(path, 10)
    ensures GenSchemes(Example(), path, [UP, DOWN])
            == [Turn(path, "up", 0), Turn(path, "up", 1), Turn(path, "down", 1), Turn(path, "down", 0)]
  {
    var d := Example();
    TurnOnly(d, path, "up", 0);
    TurnOnly(d, path, "up", 1);
    TurnOnly(d, path, "down", 0);
    TurnOnly(d, path, "down", 1);
    assert LoopFrom(d, path, UP, 2, 0) == [];
    assert LoopFrom(d, path, UP, 1, 1) == [Turn(path, "up", 1)];
    assert LoopFrom(d, path, UP, 0, 2) == [Turn(path, "up", 0), Turn(path, "up", 1)];
    assert LoopFrom(d, path, DOWN, -1, 0) == [];
    assert LoopFrom(d, path, DOWN, 0, 1) == [Turn(path, "down", 0)];
    assert LoopFrom(d, path, DOWN, 1, 2) == [Turn(path, "down", 1), Turn(path, "down", 0)];
    assert [UP, DOWN][1..] == [DOWN] && [DOWN][1..] == [];
    assert GenSchemes(d, path, []) == [];
    assert GenSchemes(d, path, [DOWN]) == LoopFrom(d, path, DOWN, 1, 2) + [];
  }
}
