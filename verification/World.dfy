/** The world a process runs in: what elaboration knows about expressions, what
    the other processes do while this one is blocked, and how blocking ends. */
module World {
  import opened Verinum
  import opened PExprs

  /** The declared signals of the design. Other processes read and write these. */
  type Store = map<string, Bits>

  datatype CaseKind = EQ | EQX | EQZ

  /** An event control is a list of these; a probe set is what `wait` watches. */
  datatype Event =
    | Named(name: string)
    | AnyEdge(expr: PExpr)
    | PosEdge(expr: PExpr)
    | NegEdge(expr: PExpr)
    | Probes(inputs: set<string>)

  /** What elaboration can tell about an expression: whether it elaborates, the constant
      it folds to, its signedness and width, and the signals it reads once folded; and the
      names that are declared, with their widths. `sized(e, w)` is e with its operands
      extended as the right-hand side of an l-value of width w asks; it may still be
      narrower than that. */
  datatype Elab = Elab(
    known: PExpr -> bool,
    fold: PExpr -> Option<Bits>,
    signed: PExpr -> bool,
    width: PExpr -> nat,
    inputs: PExpr -> set<string>,
    sized: (PExpr, nat) -> PExpr,
    declared: map<string, nat>)

  function SigWidth(G: Elab, x: string): nat {
    if x in G.declared then G.declared[x] else 0
  }

  /** Every declared signal has a value of its width. */
  ghost predicate Typed(G: Elab, s: Store) {
    forall x <- G.declared :: x in s && |s[x]| == G.declared[x]
  }

  lemma TypedStore(G: Elab, s: Store, x: string, v: Bits)
    requires Typed(G, s) && |v| == SigWidth(G, x)
    ensures Typed(G, s[x := v])
  {
  }

  /** Truncating or extending a value to a width, by the sign bit if it is signed. */
  function Resize(b: Bits, w: nat, signed: bool): (r: Bits)
    ensures |r| == w
  {
    if |b| >= w then b[..w]
    else b + seq(w - |b|, _ => if signed && b != [] then b[|b| - 1] else V0)
  }

  /** The value an assignment of e to x stores. */
  function Stored(G: Elab, I: Interp<Bits>, x: string, e: PExpr, s: Store): (r: Bits)
    ensures |r| == SigWidth(G, x)
  {
    var sized := G.sized(e, SigWidth(G, x));
    Resize(Eval(I, sized, s), SigWidth(G, x), G.signed(sized))
  }

  /** Time is a sequence of instants. `step(t, s)` is the store the other processes
      leave at instant t+1 when they find s at instant t, so it stands for any
      interleaving of their writes; `clock` is the simulation time of an instant;
      `fired` says which named events trigger on leaving an instant.
      Runs are cut off at instant `last`, and at `spins` loop rounds that let no
      time pass. */
  datatype World = World(
    I: Interp<Bits>,
    caseEq: (CaseKind, Bits, Bits) -> bool,
    ticks: Bits -> nat,
    step: (nat, Store) -> Store,
    clock: nat -> nat,
    fired: (nat, string) -> bool,
    last: nat,
    spins: nat)

  /** In a store with the declared widths, an expression that elaborates has its width
      and the value it folds to. */
  ghost predicate SoundAt(G: Elab, I: Interp<Bits>, e: PExpr, s: Store) {
    && |Eval(I, e, s)| == G.width(e)
    && (G.fold(e).Some? ==> G.fold(e).value == Eval(I, e, s))
  }

  /** Folding and widths are right, and values depend on the collected inputs only. */
  ghost predicate Sound(G: Elab, I: Interp<Bits>) {
    && (forall e, s: Store | G.known(e) && Typed(G, s) :: SoundAt(G, I, e, s))
    && (forall e, s: Store, s': Store
          | G.known(e) && Typed(G, s) && Typed(G, s') && Agree(I, G.inputs(e), s, s') ::
          Eval(I, e, s) == Eval(I, e, s'))
  }

  /** The other processes leave every signal with a value of its width. */
  ghost predicate KeepsTyped(G: Elab, W: World) {
    forall t: nat, s: Store | Typed(G, s) :: Typed(G, W.step(t, s))
  }

  /** Elaboration and the world fit together, and the run starts within its horizon
      from a store with the declared widths. */
  ghost predicate Fair(G: Elab, W: World, s: Store, t: nat) {
    Sound(G, W.I) && KeepsTyped(G, W) && Typed(G, s) && t <= W.last
  }

  /** A run either completes with a store at an instant, or is cut off. */
  datatype Outcome = Done(store: Store, at: nat) | Cut

  function Lsb(b: Bits): V {
    if b == [] then Vx else b[0]
  }

  predicate Rises(a: V, b: V) {
    a != b && (a == V0 || b == V1)
  }

  predicate Falls(a: V, b: V) {
    a != b && (a == V1 || b == V0)
  }

  predicate Occurs(W: World, ev: Event, t: nat, s: Store, s': Store) {
    match ev
    case Named(n) => W.fired(t, n)
    case AnyEdge(e) => Eval(W.I, e, s) != Eval(W.I, e, s')
    case PosEdge(e) => Rises(Lsb(Eval(W.I, e, s)), Lsb(Eval(W.I, e, s')))
    case NegEdge(e) => Falls(Lsb(Eval(W.I, e, s)), Lsb(Eval(W.I, e, s')))
    case Probes(xs) => !Agree(W.I, xs, s, s')
  }

  predicate SomeOccurs(W: World, evs: seq<Event>, t: nat, s: Store, s': Store) {
    exists i | 0 <= i < |evs| :: Occurs(W, evs[i], t, s, s')
  }

  /** Block until the clock has reached `due`, at the next instant at the earliest. */
  function AwaitTime(W: World, due: nat, s: Store, t: nat): (r: Outcome)
    requires t <= W.last
    ensures r.Done? ==> t < r.at <= W.last
    decreases W.last - t
  {
    if t == W.last then Cut
    else
      var s' := W.step(t, s);
      if W.clock(t + 1) >= due then Done(s', t + 1) else AwaitTime(W, due, s', t + 1)
  }

  /** Block until one of the events occurs. */
  function AwaitEvent(W: World, evs: seq<Event>, s: Store, t: nat): (r: Outcome)
    requires t <= W.last
    ensures r.Done? ==> t < r.at <= W.last
    decreases W.last - t
  {
    if t == W.last then Cut
    else
      var s' := W.step(t, s);
      if SomeOccurs(W, evs, t, s, s') then Done(s', t + 1) else AwaitEvent(W, evs, s', t + 1)
  }

  /** Block for n occurrences, one after the other. */
  function AwaitEvents(W: World, evs: seq<Event>, n: nat, s: Store, t: nat): (r: Outcome)
    requires t <= W.last
    ensures r.Done? ==> t <= r.at <= W.last
    decreases n
  {
    if n == 0 then Done(s, t)
    else
      match AwaitEvent(W, evs, s, t)
      case Cut => Cut
      case Done(s', t') => AwaitEvents(W, evs, n - 1, s', t')
  }

  /** Block while the condition is not known to be true. */
  function AwaitTrue(W: World, e: PExpr, s: Store, t: nat): (r: Outcome)
    requires t <= W.last
    ensures r.Done? ==> t <= r.at <= W.last
    decreases W.last - t
  {
    if Truth(Eval(W.I, e, s)) then Done(s, t)
    else if t == W.last then Cut
    else AwaitTrue(W, e, W.step(t, s), t + 1)
  }

  lemma {:induction false} AwaitTimeTyped(G: Elab, W: World, due: nat, s: Store, t: nat)
    requires KeepsTyped(G, W) && Typed(G, s) && t <= W.last
    ensures var r := AwaitTime(W, due, s, t); r.Done? ==> Typed(G, r.store)
    decreases W.last - t
  {
    if t < W.last {
      AwaitTimeTyped(G, W, due, W.step(t, s), t + 1);
    }
  }

  lemma {:induction false} AwaitEventTyped(G: Elab, W: World, evs: seq<Event>, s: Store, t: nat)
    requires KeepsTyped(G, W) && Typed(G, s) && t <= W.last
    ensures var r := AwaitEvent(W, evs, s, t); r.Done? ==> Typed(G, r.store)
    decreases W.last - t
  {
    if t < W.last {
      AwaitEventTyped(G, W, evs, W.step(t, s), t + 1);
    }
  }

  lemma {:induction false} AwaitEventsTyped(G: Elab, W: World, evs: seq<Event>, n: nat, s: Store, t: nat)
    requires KeepsTyped(G, W) && Typed(G, s) && t <= W.last
    ensures var r := AwaitEvents(W, evs, n, s, t); r.Done? ==> Typed(G, r.store)
    decreases n
  {
    if n > 0 {
      AwaitEventTyped(G, W, evs, s, t);
      var r := AwaitEvent(W, evs, s, t);
      if r.Done? {
        AwaitEventsTyped(G, W, evs, n - 1, r.store, r.at);
      }
    }
  }

  lemma {:induction false} AwaitTrueTyped(G: Elab, W: World, e: PExpr, s: Store, t: nat)
    requires KeepsTyped(G, W) && Typed(G, s) && t <= W.last
    ensures var r := AwaitTrue(W, e, s, t); r.Done? ==> Typed(G, r.store)
    decreases W.last - t
  {
    if t < W.last {
      AwaitTrueTyped(G, W, e, W.step(t, s), t + 1);
    }
  }
}
