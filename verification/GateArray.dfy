/** Arrays of built-in gates (elaborate.cc): how many gates there are, and what each of
    their pins is connected to. */
module GateArray {
  import opened PExprs
  import Selects

  datatype GateType =
    | AND | NAND | OR | NOR | XOR | XNOR | BUF | NOT
    | BUFIF0 | BUFIF1 | NOTIF0 | NOTIF1 | NMOS | RNMOS | PMOS | RPMOS | CMOS | RCMOS
    | PULLDOWN | PULLUP | TRAN | RTRAN | TRANIF0 | TRANIF1 | RTRANIF0 | RTRANIF1

  predicate ManyOutputs(t: GateType) {
    t == BUF || t == NOT
  }

  predicate Pull(t: GateType) {
    t == PULLDOWN || t == PULLUP
  }

  predicate Switch(t: GateType) {
    t == TRAN || t == RTRAN || t == TRANIF0 || t == TRANIF1 || t == RTRANIF0 || t == RTRANIF1
  }

  function GateCount(t: GateType, pins: nat): nat {
    if ManyOutputs(t) then (if pins > 2 then pins - 1 else 1)
    else if Pull(t) then pins
    else 1
  }

  function LvalCount(t: GateType, pins: nat): nat {
    if Switch(t) then 2 else GateCount(t, pins)
  }

  /** Gates of one output and any number of inputs. */
  predicate ManyInputs(t: GateType) {
    t == AND || t == NAND || t == OR || t == NOR || t == XOR || t == XNOR
  }

  /** Whether a gate can be made with so many pin expressions. */
  predicate PinsFit(t: GateType, pins: nat) {
    if Pull(t) then true
    else if ManyInputs(t) || ManyOutputs(t) then pins >= 2
    else if t == TRAN || t == RTRAN then pins == 2
    else if t == CMOS || t == RCMOS then pins == 4
    else pins == 3
  }

  /** The pins of each gate that is made. */
  function GatePins(t: GateType, pins: nat): nat {
    if ManyOutputs(t) then 2 else if Pull(t) then 1 else pins
  }

  /** A pin of a gate, by the gate's array position and its number among the outputs. */
  datatype Terminal = Terminal(pos: nat, gate: nat, pin: nat)

  /** What a pin is connected to: the whole signal of a port expression, the same spread
      over all lanes of a wide gate, or one of its bits. */
  datatype Source = Vector(port: nat) | Replicated(port: nat) | BitOf(port: nat, bit: nat)

  /** A gate's place among the nodes that are made. */
  datatype Slot = Slot(pos: nat, gate: nat)

  /** A gate's name: its index in the array, and its number. */
  datatype Name = Name(index: int, gate: nat)

  function PortOf(gateCount: nat, gate: nat, pin: nat): int {
    if pin == 0 then gate else pin + gateCount - 1
  }

  /** The counts add up: every port expression but the outputs goes to one pin number. */
  lemma CountsFit(t: GateType, pins: nat)
    requires PinsFit(t, pins) && pins >= 1
    ensures GateCount(t, pins) >= 1 && GatePins(t, pins) + GateCount(t, pins) - 1 == pins
    ensures GateCount(t, pins) <= LvalCount(t, pins) <= pins
  {
  }

  /** How the gates are laid out: as an array, or as single gates of some width. */
  datatype Shape = Shape(arrayCount: nat, gateCount: nat, gatePins: nat, instanceWidth: nat)

  predicate OfShape(s: Shape, t: Terminal) {
    t.pos < s.arrayCount && t.gate < s.gateCount && t.pin < s.gatePins
  }

  /** The source of a pin, by the width of the signal at its port. */
  function SourceOf(s: Shape, port: nat, width: nat, t: Terminal): Source {
    if s.arrayCount == 1 then (if width == 1 && s.instanceWidth != 1 then Replicated(port) else Vector(port))
    else if width == 1 then BitOf(port, 0)
    else BitOf(port, t.pos)
  }

  predicate WidthFits(s: Shape, width: nat) {
    width == 1 || width == (if s.arrayCount == 1 then s.instanceWidth else s.arrayCount)
  }

  /** A port expression: absent, failed to elaborate, or a net. */
  datatype PortExpr = Missing | Bad | Net(width: nat)

  datatype ArrayRange = NoRange | BadRange | Bounds(msb: int, lsb: int)

  function ArrayCount(range: ArrayRange): nat {
    match range
    case NoRange => 1
    case BadRange => 0
    case Bounds(msb, lsb) => if msb > lsb then msb - lsb + 1 else lsb - msb + 1
  }

  /** The width a port expression is taken at: without a range, inputs give one bit. */
  function PortWidth(t: GateType, ports: seq<PortExpr>, range: ArrayRange, idx: nat): nat
    requires idx < |ports| && ports[idx].Net?
  {
    if idx < LvalCount(t, |ports|) || range != NoRange then ports[idx].width else 1
  }

  /** A range is collapsed into wide gates when the outputs are as wide. */
  function ShapeOf(t: GateType, ports: seq<PortExpr>, range: ArrayRange): Shape
    requires ports != [] && ports[0].Net?
  {
    var n, gates, pins := ArrayCount(range), GateCount(t, |ports|), GatePins(t, |ports|);
    if ports[0].width == n then Shape(1, gates, pins, n) else Shape(n, gates, pins, 1)
  }

  function IndexOf(range: ArrayRange, pos: nat): int {
    match range
    case Bounds(msb, lsb) => if lsb < msb then lsb + pos else lsb - pos
    case _ => 0 - pos
  }

  /** The l-values are nets of one width. */
  predicate LvalsFit(t: GateType, ports: seq<PortExpr>)
    requires ports != []
  {
    && LvalCount(t, |ports|) <= |ports|
    && forall idx: nat | idx < LvalCount(t, |ports|) :: ports[idx].Net? && ports[idx] == ports[0]
  }

  /** A port is a net that fits the gates; a switch has no port that is split over them. */
  predicate PortFits(t: GateType, ports: seq<PortExpr>, range: ArrayRange, idx: nat)
    requires ports != [] && ports[0].Net? && idx < |ports|
  {
    && ports[idx].Net?
    && WidthFits(ShapeOf(t, ports, range), PortWidth(t, ports, range, idx))
    && (Switch(t) && ShapeOf(t, ports, range).arrayCount != 1 ==> PortWidth(t, ports, range, idx) == 1)
  }

  predicate PortsFit(t: GateType, ports: seq<PortExpr>, range: ArrayRange, n: nat)
    requires ports != [] && ports[0].Net? && n <= |ports|
  {
    forall idx: nat | idx < n :: PortFits(t, ports, range, idx)
  }

  /** The statements that elaborate without error. */
  predicate Acceptable(t: GateType, ports: seq<PortExpr>, range: ArrayRange)
    requires ports != []
  {
    && range != BadRange && LvalsFit(t, ports) && PinsFit(t, |ports|)
    && ports[0].Net? && PortsFit(t, ports, range, |ports|)
  }

  /** The signal bit that the pin of a gate at an array position gets in the end. */
  function Reached(s: Shape, conns: map<Terminal, Source>, pos: nat, gate: nat, pin: nat): (nat, nat)
    requires Terminal(if s.arrayCount == 1 then 0 else pos, gate, pin) in conns
  {
    match conns[Terminal(if s.arrayCount == 1 then 0 else pos, gate, pin)]
    case Vector(port) => (port, pos)
    case Replicated(port) => (port, 0)
    case BitOf(port, bit) => (port, bit)
  }

  /** Each pin of each gate is connected, to the bit its array position names, or to the
      only bit there is. */
  ghost predicate FullyWired(t: GateType, ports: seq<PortExpr>, range: ArrayRange, conns: map<Terminal, Source>)
    requires ports != [] && Acceptable(t, ports, range)
  {
    var s := ShapeOf(t, ports, range);
    && (forall x :: x in conns <==> OfShape(s, x))
    && forall pos: nat, gate: nat, pin: nat |
        pos < ArrayCount(range) && gate < GateCount(t, |ports|) && pin < GatePins(t, |ports|) ::
          WiredAt(t, ports, range, conns, pos, gate, pin)
  }

  predicate WiredAt(t: GateType, ports: seq<PortExpr>, range: ArrayRange, conns: map<Terminal, Source>,
                    pos: nat, gate: nat, pin: nat)
    requires ports != [] && ports[0].Net?
  {
    var s := ShapeOf(t, ports, range);
    var port := PortOf(s.gateCount, gate, pin);
    && Terminal(if s.arrayCount == 1 then 0 else pos, gate, pin) in conns
    && 0 <= port < |ports| && ports[port].Net?
    && Reached(s, conns, pos, gate, pin) == (port, if PortWidth(t, ports, range, port) == 1 then 0 else pos)
  }

  /** What is connected once the first `n` ports are done. */
  ghost predicate PortsDone(t: GateType, ports: seq<PortExpr>, range: ArrayRange, conns: map<Terminal, Source>, n: nat)
    requires ports != [] && ports[0].Net?
  {
    var s := ShapeOf(t, ports, range);
    && (forall x :: x in conns <==> OfShape(s, x) && PortOf(s.gateCount, x.gate, x.pin) < n)
    && forall x <- conns :: var port := PortOf(s.gateCount, x.gate, x.pin);
        0 <= port < |ports| && ports[port].Net? && conns[x] == SourceOf(s, port, PortWidth(t, ports, range, port), x)
  }

  lemma AllDone(t: GateType, ports: seq<PortExpr>, range: ArrayRange, conns: map<Terminal, Source>)
    requires ports != [] && Acceptable(t, ports, range) && PortsDone(t, ports, range, conns, |ports|)
    requires forall p <- ports :: p.Net? ==> p.width >= 1
    ensures FullyWired(t, ports, range, conns)
  {
    CountsFit(t, |ports|);
    forall pos: nat, gate: nat, pin: nat
      | pos < ArrayCount(range) && gate < GateCount(t, |ports|) && pin < GatePins(t, |ports|)
      ensures WiredAt(t, ports, range, conns, pos, gate, pin)
    {
      OneDone(t, ports, range, conns, pos, gate, pin);
    }
  }

  lemma OneDone(t: GateType, ports: seq<PortExpr>, range: ArrayRange, conns: map<Terminal, Source>,
                pos: nat, gate: nat, pin: nat)
    requires ports != [] && ports[0].Net? && PinsFit(t, |ports|) && PortsFit(t, ports, range, |ports|)
    requires PortsDone(t, ports, range, conns, |ports|)
    requires forall p <- ports :: p.Net? ==> p.width >= 1
    requires pos < ArrayCount(range) && gate < GateCount(t, |ports|) && pin < GatePins(t, |ports|)
    ensures WiredAt(t, ports, range, conns, pos, gate, pin)
  {
    var s := ShapeOf(t, ports, range);
    ShapeHolds(t, ports, range, pos, gate, pin);
    var port := PortOf(s.gateCount, gate, pin);
    DoneAt(t, ports, range, conns, Terminal(if s.arrayCount == 1 then 0 else pos, gate, pin));
    FitsAt(t, ports, range, port);
    SourceReaches(s, conns, pos, gate, pin, port, PortWidth(t, ports, range, port), ArrayCount(range));
  }

  lemma FitsAt(t: GateType, ports: seq<PortExpr>, range: ArrayRange, port: nat)
    requires ports != [] && ports[0].Net? && PortsFit(t, ports, range, |ports|) && port < |ports|
    requires forall p <- ports :: p.Net? ==> p.width >= 1
    ensures ports[port].Net? && PortWidth(t, ports, range, port) >= 1
    ensures WidthFits(ShapeOf(t, ports, range), PortWidth(t, ports, range, port))
  {
    assert PortFits(t, ports, range, port);
  }

  lemma DoneAt(t: GateType, ports: seq<PortExpr>, range: ArrayRange, conns: map<Terminal, Source>, x: Terminal)
    requires ports != [] && ports[0].Net? && PortsDone(t, ports, range, conns, |ports|)
    requires OfShape(ShapeOf(t, ports, range), x) && PortOf(ShapeOf(t, ports, range).gateCount, x.gate, x.pin) < |ports|
    ensures var port := PortOf(ShapeOf(t, ports, range).gateCount, x.gate, x.pin);
      && x in conns && 0 <= port && ports[port].Net?
      && conns[x] == SourceOf(ShapeOf(t, ports, range), port, PortWidth(t, ports, range, port), x)
  {
  }

  /** Attaching the next port. */
  lemma DoneStep(t: GateType, ports: seq<PortExpr>, range: ArrayRange, before: map<Terminal, Source>,
                 conns: map<Terminal, Source>, idx: nat)
    requires ports != [] && ports[0].Net? && idx < |ports| && ports[idx].Net? && PortsDone(t, ports, range, before, idx)
    requires var s := ShapeOf(t, ports, range);
      && (forall x :: x in conns <==> x in before || (OfShape(s, x) && PortOf(s.gateCount, x.gate, x.pin) == idx))
      && (forall x <- conns :: conns[x] ==
            if x in before then before[x] else SourceOf(s, idx, PortWidth(t, ports, range, idx), x))
    ensures PortsDone(t, ports, range, conns, idx + 1)
  {
  }

  /** The first `n` ports are connected, unless one was counted as an error. */
  ghost predicate AttachedTo(t: GateType, ports: seq<PortExpr>, range: ArrayRange, conns: map<Terminal, Source>,
                             errors: nat, n: nat)
    requires ports != [] && ports[0].Net? && n <= |ports|
  {
    && (errors == 0 <==> PortsFit(t, ports, range, n))
    && (errors == 0 ==> PortsDone(t, ports, range, conns, n))
    && forall x <- conns :: PortOf(GateCount(t, |ports|), x.gate, x.pin) < n
  }

  lemma BadStep(t: GateType, ports: seq<PortExpr>, range: ArrayRange, conns: map<Terminal, Source>,
                errors: nat, idx: nat)
    requires ports != [] && ports[0].Net? && idx < |ports| && ports[idx].Bad?
    requires AttachedTo(t, ports, range, conns, errors, idx)
    ensures AttachedTo(t, ports, range, conns, errors + 1, idx + 1)
  {
    FitStep(t, ports, range, idx);
    assert !PortFits(t, ports, range, idx);
  }

  lemma AttachStep(t: GateType, ports: seq<PortExpr>, range: ArrayRange, before: map<Terminal, Source>, errors: nat,
                   conns: map<Terminal, Source>, errors': nat, idx: nat)
    requires ports != [] && ports[0].Net? && idx < |ports| && ports[idx].Net?
    requires AttachedTo(t, ports, range, before, errors, idx)
    requires errors' == errors + if PortFits(t, ports, range, idx) then 0 else 1
    requires var s := ShapeOf(t, ports, range);
      && (errors' == errors ==>
            forall x :: x in conns <==> x in before || (OfShape(s, x) && PortOf(s.gateCount, x.gate, x.pin) == idx))
      && (forall x <- conns :: x in before || PortOf(s.gateCount, x.gate, x.pin) == idx)
      && (forall x <- conns :: conns[x] ==
            if x in before then before[x] else SourceOf(s, idx, PortWidth(t, ports, range, idx), x))
    ensures AttachedTo(t, ports, range, conns, errors', idx + 1)
  {
    FitStep(t, ports, range, idx);
    if errors' == 0 {
      DoneStep(t, ports, range, before, conns, idx);
    }
  }

  lemma ShapeHolds(t: GateType, ports: seq<PortExpr>, range: ArrayRange, pos: nat, gate: nat, pin: nat)
    requires ports != [] && ports[0].Net? && PinsFit(t, |ports|)
    requires pos < ArrayCount(range) && gate < GateCount(t, |ports|) && pin < GatePins(t, |ports|)
    ensures var s := ShapeOf(t, ports, range); var n := ArrayCount(range);
      && s.gateCount == GateCount(t, |ports|)
      && OfShape(s, Terminal(if s.arrayCount == 1 then 0 else pos, gate, pin))
      && 0 <= PortOf(s.gateCount, gate, pin) < |ports|
      && ((s.arrayCount == 1 && s.instanceWidth == n) || (s.arrayCount == n && s.instanceWidth == 1))
  {
    CountsFit(t, |ports|);
  }

  lemma SourceReaches(s: Shape, conns: map<Terminal, Source>, pos: nat, gate: nat, pin: nat,
                      port: nat, width: nat, n: nat)
    requires pos < n && width >= 1 && WidthFits(s, width)
    requires (s.arrayCount == 1 && s.instanceWidth == n) || (s.arrayCount == n && s.instanceWidth == 1)
    requires var x := Terminal(if s.arrayCount == 1 then 0 else pos, gate, pin);
             x in conns && conns[x] == SourceOf(s, port, width, x)
    ensures Reached(s, conns, pos, gate, pin) == (port, if width == 1 then 0 else pos)
  {
  }

  class Wiring {
    var conns: map<Terminal, Source>
    var names: map<Slot, Name>
    var errors: nat

    constructor ()
      ensures conns == map[] && errors == 0
    {
      conns, names, errors := map[], map[], 0;
    }

    /** A pin is connected at most once. */
    method Connect(t: Terminal, source: Source)
      requires t !in conns
      modifies this`conns
      ensures conns == old(conns)[t := source]
    {
      conns := conns[t := source];
    }

    /** An output port goes to one gate at each array position. */
    method ConnectOutput(s: Shape, idx: nat, width: nat)
      requires idx < s.gateCount && s.gatePins >= 1
      requires forall x <- conns :: PortOf(s.gateCount, x.gate, x.pin) != idx
      modifies this`conns
      ensures forall x ::
        x in conns <==> x in old(conns) || (OfShape(s, x) && PortOf(s.gateCount, x.gate, x.pin) == idx)
      ensures forall x <- conns :: conns[x] == if x in old(conns) then old(conns)[x] else SourceOf(s, idx, width, x)
    {
      for gdx := 0 to s.arrayCount
        invariant forall x :: x in conns <==>
          x in old(conns) || (OfShape(s, x) && PortOf(s.gateCount, x.gate, x.pin) == idx && x.pos < gdx)
        invariant forall x <- conns :: conns[x] == if x in old(conns) then old(conns)[x] else SourceOf(s, idx, width, x)
      {
        var t := Terminal(gdx, idx, 0);
        Connect(t, SourceOf(s, idx, width, t));
      }
    }

    /** Any other port goes to one pin of every gate. */
    method ConnectInput(s: Shape, idx: nat, width: nat)
      requires s.gateCount <= idx && idx - s.gateCount + 1 < s.gatePins
      requires forall x <- conns :: PortOf(s.gateCount, x.gate, x.pin) != idx
      modifies this`conns
      ensures forall x ::
        x in conns <==> x in old(conns) || (OfShape(s, x) && PortOf(s.gateCount, x.gate, x.pin) == idx)
      ensures forall x <- conns :: conns[x] == if x in old(conns) then old(conns)[x] else SourceOf(s, idx, width, x)
    {
      var useIdx := idx - s.gateCount + 1;
      for gdx := 0 to s.arrayCount
        invariant forall x :: x in conns <==>
          x in old(conns) || (OfShape(s, x) && PortOf(s.gateCount, x.gate, x.pin) == idx && x.pos < gdx)
        invariant forall x <- conns :: conns[x] == if x in old(conns) then old(conns)[x] else SourceOf(s, idx, width, x)
      {
        for gdx2 := 0 to s.gateCount
          invariant forall x :: x in conns <==>
            (x in old(conns)
             || (OfShape(s, x) && PortOf(s.gateCount, x.gate, x.pin) == idx
                 && (x.pos < gdx || (x.pos == gdx && x.gate < gdx2))))
          invariant forall x <- conns ::
            conns[x] == if x in old(conns) then old(conns)[x] else SourceOf(s, idx, width, x)
        {
          var t := Terminal(gdx, gdx2, useIdx);
          Connect(t, SourceOf(s, idx, width, t));
        }
      }
    }

    /** One port expression is attached to the gates. */
    method ConnectPort(t: GateType, s: Shape, idx: nat, width: nat)
      requires s.gatePins >= 1 && idx < s.gatePins + s.gateCount - 1
      requires forall x <- conns :: PortOf(s.gateCount, x.gate, x.pin) != idx
      modifies this`conns, this`errors
      ensures errors == old(errors)
        + if WidthFits(s, width) && (Switch(t) && s.arrayCount != 1 ==> width == 1) then 0 else 1
      ensures errors == old(errors) ==>
        forall x :: x in conns <==> x in old(conns) || (OfShape(s, x) && PortOf(s.gateCount, x.gate, x.pin) == idx)
      ensures forall x <- conns :: x in old(conns) || PortOf(s.gateCount, x.gate, x.pin) == idx
      ensures forall x <- conns :: conns[x] == if x in old(conns) then old(conns)[x] else SourceOf(s, idx, width, x)
    {
      if s.arrayCount == 1 {
        if width != 1 && s.instanceWidth != width {
          errors := errors + 1;
        }
      } else if width == 1 {
      } else if width == s.arrayCount {
        if Switch(t) {
          errors := errors + 1;
          return;
        }
      } else {
        errors := errors + 1;
        return;
      }
      if idx < s.gateCount {
        ConnectOutput(s, idx, width);
      } else {
        ConnectInput(s, idx, width);
      }
    }

    /** The l-values come first; they must be there and of one width. */
    method CheckLvals(t: GateType, ports: seq<PortExpr>) returns (ok: bool)
      requires ports != []
      modifies this`errors
      ensures ok <==> LvalsFit(t, ports)
      ensures errors == old(errors) + if ok then 0 else 1
    {
      var lvalCount := LvalCount(t, |ports|);
      for idx := 0 to lvalCount
        invariant idx <= |ports| && errors == old(errors)
        invariant forall i: nat | i < idx :: ports[i].Net? && ports[i] == ports[0]
      {
        if idx >= |ports| || !ports[idx].Net? || ports[idx].width != (if ports[0].Net? then ports[0].width else 0) {
          errors := errors + 1;
          return false;
        }
      }
      return true;
    }

    /** The gates are made and named, unless the kind does not take so many pins. */
    method CreateGates(t: GateType, pins: nat, s: Shape, range: ArrayRange) returns (ok: bool)
      requires s.gateCount >= 1 && s.arrayCount >= 1
      modifies this`errors, this`names
      ensures ok <==> PinsFit(t, pins)
      ensures errors == old(errors) + if ok then 0 else 1
      ensures ok ==> forall x :: x in names <==> x.pos < s.arrayCount && x.gate < s.gateCount
      ensures ok ==> forall x <- names :: names[x] == Name(IndexOf(range, x.pos), x.gate)
    {
      names := map[];
      for arrayIdx := 0 to s.arrayCount
        invariant errors == old(errors) && (arrayIdx > 0 ==> PinsFit(t, pins))
        invariant forall x :: x in names <==> x.pos < arrayIdx && x.gate < s.gateCount
        invariant forall x <- names :: names[x] == Name(IndexOf(range, x.pos), x.gate)
      {
        ok := CreateRow(t, pins, s, range, arrayIdx);
        if !ok {
          return;
        }
      }
      return true;
    }

    method CreateRow(t: GateType, pins: nat, s: Shape, range: ArrayRange, arrayIdx: nat) returns (ok: bool)
      requires s.gateCount >= 1
      requires forall x :: x in names <==> x.pos < arrayIdx && x.gate < s.gateCount
      requires forall x <- names :: names[x] == Name(IndexOf(range, x.pos), x.gate)
      modifies this`errors, this`names
      ensures ok <==> PinsFit(t, pins)
      ensures errors == old(errors) + if ok then 0 else 1
      ensures ok ==> forall x :: x in names <==> x.pos < arrayIdx + 1 && x.gate < s.gateCount
      ensures forall x <- names :: names[x] == Name(IndexOf(range, x.pos), x.gate)
    {
      var fit := PinsFit(t, pins);
      for gateIdx := 0 to s.gateCount
        invariant errors == old(errors) && (gateIdx > 0 ==> fit)
        invariant forall x ::
          x in names <==> x.gate < s.gateCount && (x.pos < arrayIdx || (x.pos == arrayIdx && x.gate < gateIdx))
        invariant forall x <- names :: names[x] == Name(IndexOf(range, x.pos), x.gate)
      {
        if !fit {
          errors := errors + 1;
          return false;
        }
        names := names[Slot(arrayIdx, gateIdx) := Name(IndexOf(range, arrayIdx), gateIdx)];
      }
      return true;
    }

    /** Exactly the acceptable statements elaborate without error, and then every pin of
        every gate is connected once, to the right bit, and the names differ. */
    method Elaborate(t: GateType, ports: seq<PortExpr>, range: ArrayRange)
      requires ports != [] && conns == map[] && errors == 0
      requires forall p <- ports :: p.Net? ==> p.width >= 1
      modifies this
      ensures errors == 0 <==> Acceptable(t, ports, range)
      ensures errors == 0 ==> FullyWired(t, ports, range, conns)
      ensures errors == 0 ==> forall x <- names, y <- names | x != y :: names[x] != names[y]
      ensures errors == 0 ==> forall x <- names :: names[x] == Name(IndexOf(range, x.pos), x.gate)
      ensures errors == 0 ==> forall x ::
                x in names <==> x.pos < ShapeOf(t, ports, range).arrayCount && x.gate < GateCount(t, |ports|)
    {
      if range == BadRange {
        errors := 1;
        return;
      }
      var ok := CheckLvals(t, ports);
      if !ok {
        return;
      }
      var s := ShapeOf(t, ports, range);
      ok := CreateGates(t, |ports|, s, range);
      if !ok {
        return;
      }
      NamesDiffer(range, names);
      AttachPorts(t, ports, range);
      if errors == 0 {
        AllDone(t, ports, range, conns);
      }
    }

    /** The first `n` ports are attached, or one of them was in error. */
    ghost predicate Attached(t: GateType, ports: seq<PortExpr>, range: ArrayRange, n: nat)
      requires ports != [] && ports[0].Net? && n <= |ports|
      reads this
    {
      AttachedTo(t, ports, range, conns, errors, n)
    }

    /** All ports are attached; an absent one ends that at once. */
    method AttachPorts(t: GateType, ports: seq<PortExpr>, range: ArrayRange)
      requires ports != [] && ports[0].Net? && PinsFit(t, |ports|) && conns == map[] && errors == 0
      modifies this`conns, this`errors
      ensures errors == 0 <==> PortsFit(t, ports, range, |ports|)
      ensures errors == 0 ==> PortsDone(t, ports, range, conns, |ports|)
    {
      for idx := 0 to |ports|
        invariant Attached(t, ports, range, idx)
      {
        if ports[idx].Missing? {
          MissingFits(t, ports, range, idx);
          errors := errors + 1;
          return;
        }
        AttachPort(t, ports, range, idx);
      }
    }

    method AttachPort(t: GateType, ports: seq<PortExpr>, range: ArrayRange, idx: nat)
      requires ports != [] && ports[0].Net? && PinsFit(t, |ports|) && idx < |ports| && !ports[idx].Missing?
      requires Attached(t, ports, range, idx)
      modifies this`conns, this`errors
      ensures Attached(t, ports, range, idx + 1)
    {
      CountsFit(t, |ports|);
      if ports[idx].Bad? {
        BadStep(t, ports, range, conns, errors, idx);
        errors := errors + 1;
      } else {
        ConnectPort(t, ShapeOf(t, ports, range), idx, PortWidth(t, ports, range, idx));
        AttachStep(t, ports, range, old(conns), old(errors), conns, errors, idx);
      }
    }
  }

  lemma MissingFits(t: GateType, ports: seq<PortExpr>, range: ArrayRange, idx: nat)
    requires ports != [] && ports[0].Net? && idx < |ports| && ports[idx].Missing?
    ensures !PortsFit(t, ports, range, |ports|)
  {
    assert !PortFits(t, ports, range, idx);
  }

  lemma FitStep(t: GateType, ports: seq<PortExpr>, range: ArrayRange, idx: nat)
    requires ports != [] && ports[0].Net? && idx < |ports|
    ensures PortsFit(t, ports, range, idx + 1) <==> PortsFit(t, ports, range, idx) && PortFits(t, ports, range, idx)
  {
  }

  lemma NamesDiffer(range: ArrayRange, names: map<Slot, Name>)
    requires forall x <- names :: names[x] == Name(IndexOf(range, x.pos), x.gate)
    ensures forall x <- names, y <- names | x != y :: names[x] != names[y]
  {
    forall x <- names, y <- names | x != y ensures names[x] != names[y] {
      if x.pos != y.pos {
        assert IndexOf(range, x.pos) != IndexOf(range, y.pos);
      }
    }
  }

  /** A port is one bit or as wide as the array; of a switch in an array, it is wide only
      if the outputs are. */
  predicate WidthAllowed(t: GateType, ports: seq<PortExpr>, range: ArrayRange, idx: nat)
    requires ports != [] && ports[0].Net? && idx < |ports|
  {
    && ports[idx].Net?
    && var width := PortWidth(t, ports, range, idx);
       (width == 1 || (width == ArrayCount(range) && (Switch(t) ==> ports[0].width == width)))
  }

  lemma FitsExact(t: GateType, ports: seq<PortExpr>, range: ArrayRange, idx: nat)
    requires ports != [] && ports[0].Net? && idx < |ports| && range != BadRange
    ensures PortFits(t, ports, range, idx) <==> WidthAllowed(t, ports, range, idx)
  {
  }

  predicate WidthsAllowed(t: GateType, ports: seq<PortExpr>, range: ArrayRange, n: nat)
    requires ports != [] && ports[0].Net? && n <= |ports|
  {
    forall idx: nat | idx < n :: WidthAllowed(t, ports, range, idx)
  }

  lemma {:induction false} PortsFitExact(t: GateType, ports: seq<PortExpr>, range: ArrayRange, n: nat)
    requires ports != [] && ports[0].Net? && range != BadRange && n <= |ports|
    ensures PortsFit(t, ports, range, n) <==> WidthsAllowed(t, ports, range, n)
  {
    if n > 0 {
      PortsFitExact(t, ports, range, n - 1);
      FitsExact(t, ports, range, n - 1);
      FitStep(t, ports, range, n - 1);
      AllowedStep(t, ports, range, n - 1);
    }
  }

  lemma AllowedStep(t: GateType, ports: seq<PortExpr>, range: ArrayRange, n: nat)
    requires ports != [] && ports[0].Net? && n < |ports|
    ensures WidthsAllowed(t, ports, range, n + 1) <==>
            WidthsAllowed(t, ports, range, n) && WidthAllowed(t, ports, range, n)
  {
  }

  /** Statements are accepted by their pins and by the widths of their ports. */
  lemma AcceptableExact(t: GateType, ports: seq<PortExpr>, range: ArrayRange)
    requires ports != [] && range != BadRange
    ensures Acceptable(t, ports, range) <==>
            && PinsFit(t, |ports|) && LvalsFit(t, ports)
            && ports[0].Net? && WidthsAllowed(t, ports, range, |ports|)
  {
    if ports[0].Net? {
      PortsFitExact(t, ports, range, |ports|);
    }
  }

  /** One row of gates is made, as wide as the array, if the outputs are as wide; else a row
      of single gates for every number in the range. */
  lemma RowsExact(t: GateType, ports: seq<PortExpr>, range: ArrayRange)
    requires ports != [] && ports[0].Net? && range != BadRange
    ensures var s, n := ShapeOf(t, ports, range), ArrayCount(range);
            && s.arrayCount * s.instanceWidth == n
            && (s.arrayCount == 1 <==> ports[0].width == n || n == 1)
  {
  }

  /** The number in the name of a gate is the declared number of its bit. */
  lemma IndexNamesBit(msb: int, lsb: int, v: int)
    ensures var pos := Selects.SbToIdx(Selects.Range(msb, lsb), v);
            0 <= pos < ArrayCount(Bounds(msb, lsb)) <==> lsb <= v <= msb || msb <= v <= lsb
    ensures var pos := Selects.SbToIdx(Selects.Range(msb, lsb), v);
            0 <= pos < ArrayCount(Bounds(msb, lsb)) ==> IndexOf(Bounds(msb, lsb), pos) == v
    ensures forall pos: nat | pos < ArrayCount(Bounds(msb, lsb)) ::
              IndexOf(Bounds(msb, lsb), pos) == v ==> Selects.SbToIdx(Selects.Range(msb, lsb), v) == pos
  {
  }

  /** In an array from `lsb` to `msb`, the gate named v gets, of a signal as wide as the
      array, the bit that a vector of that range numbers v, and of a scalar its only bit. */
  lemma NamedGetsBit(t: GateType, ports: seq<PortExpr>, msb: int, lsb: int, conns: map<Terminal, Source>,
                     names: map<Slot, Name>, slot: Slot, pin: nat)
    requires var range := Bounds(msb, lsb);
             && ports != [] && Acceptable(t, ports, range) && FullyWired(t, ports, range, conns)
             && (forall x <- names :: names[x] == Name(IndexOf(range, x.pos), x.gate))
             && slot in names && slot.pos < ArrayCount(range)
             && slot.gate < GateCount(t, |ports|) && pin < GatePins(t, |ports|)
    ensures var range, v := Bounds(msb, lsb), names[slot].index;
            var s := ShapeOf(t, ports, range);
            var port := PortOf(s.gateCount, slot.gate, pin);
            && 0 <= port < |ports| && ports[port].Net?
            && Terminal(if s.arrayCount == 1 then 0 else slot.pos, slot.gate, pin) in conns
            && Reached(s, conns, slot.pos, slot.gate, pin) ==
               (port, if ports[port].width == 1 then 0 else Selects.SbToIdx(Selects.Range(msb, lsb), v))
  {
    var range := Bounds(msb, lsb);
    assert WiredAt(t, ports, range, conns, slot.pos, slot.gate, pin);
    IndexNamesBit(msb, lsb, names[slot].index);
  }
}
