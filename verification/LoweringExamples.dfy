/** A design, a meaning and a world that meet every hypothesis of the lowering theorems,
    a run in them, and the two laws of lowering that fail, at concrete inputs. */
module LoweringExamples {
  import opened Verinum
  import opened PExprs
  import opened World
  import opened PForm
  import opened Netlist
  import opened Elaborate
  import opened Preservation
  import opened LoweringTheorems
  import opened ForStep

  /** A scalar and a vector of four bits. */
  const DECLARED: map<string, nat> := map["a" := 1, "x" := 4]

  /** Expressions of numbers, signals, unary and binary operators, and concatenations. */
  predicate Known(e: PExpr)
    decreases e
  {
    match e
    case PENumber(_) => true
    case PEIdent(x, index) => index == [] && x in DECLARED
    case PEUnary(_, a) => Known(a)
    case PEBinary(_, l, r) => Known(l) && Known(r)
    case PEConcat(parms, None) => AllKnown(parms)
    case _ => false
  }

  predicate AllKnown(es: seq<PExpr>)
    decreases es
  {
    es == [] || (Known(es[0]) && AllKnown(es[1..]))
  }

  function Width(e: PExpr): nat
    decreases e
  {
    match e
    case PENumber(v) => |v|
    case PEIdent(x, _) => if x in DECLARED then DECLARED[x] else 0
    case PEConcat(parms, None) => Widths(parms)
    case _ => 1
  }

  function Widths(es: seq<PExpr>): nat
    decreases es
  {
    if es == [] then 0 else Width(es[0]) + Widths(es[1..])
  }

  function Fold(e: PExpr): Option<Bits> {
    match e
    case PENumber(v) => Some(v)
    case PEUnary(_, PENumber(v)) => Some(NeZero(v))
    case _ => None
  }

  /** The first part is the most significant. */
  function Joined(parts: seq<Bits>): Bits {
    if parts == [] then [] else Joined(parts[1..]) + parts[0]
  }

  /** Unary operators reduce, binary ones compare, and concatenations join. */
  function Meaning(): Interp<Bits> {
    Interp(b => b, _ => [], [Vx], (a, kinds, index) => [Vx], (a, kinds, index, part) => a, (op, a) => NeZero(a),
           (op, a, b) => [if a == b then V1 else V0], (c, t, f) => [Vx], (parts, n) => Joined(parts),
           (fn, args) => [Vx])
  }

  function Knowledge(): Elab {
    Elab(Known, Fold, _ => false, Width, Names, (e, w) => e, DECLARED)
  }

  /** Another process raises `a` from the fourth instant on. */
  function RaisingWorld(): World {
    World(Meaning(), (kind, v, w) => v == w, b => ToNat(b),
          (t, s) => if t >= 3 then s["a" := [V1]] else s, t => t, (t, n) => false, 9, 0)
  }

  const START: Store := map["a" := [V0], "x" := [Vx, Vx, Vx, Vx]]

  lemma {:induction false} WidthIs(e: PExpr, s: Store)
    requires Known(e) && Typed(Knowledge(), s)
    ensures |Eval(Meaning(), e, s)| == Width(e)
    decreases e
  {
    match e
    case PEConcat(parms, None) => WidthsAre(parms, s);
    case _ =>
  }

  lemma {:induction false} WidthsAre(es: seq<PExpr>, s: Store)
    requires AllKnown(es) && Typed(Knowledge(), s)
    ensures |Joined(EvalAll(Meaning(), es, s))| == Widths(es)
    decreases es
  {
    if es != [] {
      WidthIs(es[0], s);
      WidthsAre(es[1..], s);
      assert EvalAll(Meaning(), es, s)[1..] == EvalAll(Meaning(), es[1..], s);
    }
  }

  lemma ExampleSound()
    ensures Sound(Knowledge(), Meaning())
  {
    var G, I := Knowledge(), Meaning();
    forall e, s: Store | G.known(e) && Typed(G, s) ensures SoundAt(G, I, e, s) {
      WidthIs(e, s);
    }
    forall e, s: Store, s': Store | Agree(I, G.inputs(e), s, s') ensures Eval(I, e, s) == Eval(I, e, s') {
      EvalAgrees(I, e, s, s');
    }
  }

  /** The hypotheses of the theorems can all be met. */
  lemma ExampleFair()
    ensures Fair(Knowledge(), RaisingWorld(), START, 0)
  {
    ExampleSound();
    var G, W := Knowledge(), RaisingWorld();
    forall t: nat, s: Store | Typed(G, s) ensures Typed(G, W.step(t, s)) {
      TypedStore(G, s, "a", [V1]);
    }
  }

  const FIRST := PAssign("x", PENumber([V0, V1]), Delayed(PENumber([V0, V1])))
  const SECOND := PWait(PEIdent("a", []), Some(PAssign("x", PEIdent("a", []), Plain)))

  /** begin x = #2 2'b10; wait (a) x = a; end */
  function Example(): Statement {
    PBlock(None, [FIRST, SECOND])
  }

  const MIDDLE: Store := map["a" := [V0], "x" := [V0, V1, V0, V0]]
  const END: Store := map["a" := [V1], "x" := [V1, V0, V0, V0]]

  lemma {:induction false} FirstRun()
    ensures Run(Knowledge(), RaisingWorld(), FIRST, START, 0) == Done(MIDDLE, 2)
  {
    var W := RaisingWorld();
    assert ToNat([V0, V1]) == 2;
    assert AwaitTime(W, 2, START, 1) == Done(START, 2);
    assert AwaitTime(W, 2, START, 0) == Done(START, 2);
    assert Stored(Knowledge(), W.I, "x", FIRST.rval, START) == [V0, V1, V0, V0];
  }

  lemma {:induction false} SecondRun()
    ensures Run(Knowledge(), RaisingWorld(), SECOND, MIDDLE, 2) == Done(END, 4)
  {
    var W, e := RaisingWorld(), PEIdent("a", []);
    var raised := MIDDLE["a" := [V1]];
    assert AwaitTrue(W, e, raised, 4) == Done(raised, 4);
    assert AwaitTrue(W, e, MIDDLE, 3) == Done(raised, 4);
    assert AwaitTrue(W, e, MIDDLE, 2) == Done(raised, 4);
    assert Stored(Knowledge(), W.I, "x", e, raised) == [V1, V0, V0, V0];
    assert raised["x" := [V1, V0, V0, V0]] == END;
  }

  lemma {:induction false} ExampleRun()
    ensures Run(Knowledge(), RaisingWorld(), Example(), START, 0) == Done(END, 4)
  {
    FirstRun();
    SecondRun();
    var G, W, list := Knowledge(), RaisingWorld(), [FIRST, SECOND];
    assert list[1..] == [SECOND] && [SECOND][1..] == [];
    assert RunList(G, W, [], END, 4) == Done(END, 4);
    assert RunList(G, W, [SECOND], MIDDLE, 2) == Done(END, 4);
  }

  lemma ExampleLowered() returns (p: NetProc)
    ensures Elaborates(Knowledge(), Example(), Des(0, 0), p) && SizesFit(Knowledge(), Example())
  {
    p := Lower(Knowledge(), Example(), Des(0, 0)).0.value;
  }

  /** The code of the example ends with the same signals at the same instant. */
  lemma ExampleCode() returns (p: NetProc)
    ensures Elaborates(Knowledge(), Example(), Des(0, 0), p) && SizesFit(Knowledge(), Example())
    ensures var r := NetRun(RaisingWorld(), p, NetStore(START, map[]), 0);
            r.NetDone? && r.store.sigs == END && r.at == 4
  {
    p := ExampleLowered();
    ExampleFair();
    LoweringPreserves(Knowledge(), RaisingWorld(), Example(), Des(0, 0), p, NetStore(START, map[]), 0);
    ExampleRun();
  }

  /** repeat (64'h8000_0000_0000_0000) loses its rounds. */
  lemma RoundsLost()
    ensures !RepeatPreservedForAll(Knowledge(), Meaning(), PENumber(Fill(LONG_BITS, V0) + [V1]))
  {
    ExampleSound();
    CountFoldLoses();
    RepeatFoldExact(Knowledge(), Meaning(), PENumber(Fill(LONG_BITS, V0) + [V1]));
  }

  /** x = repeat (64'h8000_0000_0000_0000) @ev a waits no more than once. */
  lemma WaitsLost()
    ensures !WaitsPreservedForAll(Knowledge(), Meaning(), PENumber(Fill(LONG_BITS, V0) + [V1]))
  {
    ExampleSound();
    CountFoldLoses();
    WaitsFoldExact(Knowledge(), Meaning(), PENumber(Fill(LONG_BITS, V0) + [V1]), "x", PEIdent("a", []));
  }

  /** for (...; ...; x = a) leaves four bits of x with one. */
  lemma StepTooNarrow()
    ensures !StepPreservedForAll(Knowledge(), Meaning(), "x", PEIdent("a", []))
  {
    ExampleSound();
    StepExact(Knowledge(), Meaning(), "x", PEIdent("a", []), "a");
  }
}
