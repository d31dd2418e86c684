/** Nexuses and what is linked to them, and the two scans that tell whether a nexus is
    constant and at which value (link_const.cc). */
module Nexus {
  import opened Verinum

  datatype Dir = PASSIVE | INPUT | OUTPUT

  /** REG stands for all variable types, WIRE for the types that drive nothing. */
  datatype NetType = WIRE | REG | SUPPLY0 | SUPPLY1 | TRI0 | TRI1 | WAND | WOR

  datatype PortType = NOT_A_PORT | PINPUT | POUTPUT | PINOUT

  datatype Node =
    | NetConst(value: Bits)
    | NetMux(size: nat, selWidth: nat)
    | NetBUFZ
    | NetNet(kind: NetType, port: PortType, root: bool, lref: bool)
    | Device(dirs: seq<Dir>)

  datatype Pin = Pin(obj: nat, pin: nat)

  type Nodes = map<nat, Node>

  function PinCount(node: Node): nat {
    match node
    case NetConst(_) => 1
    case NetMux(size, _) => 2 + size
    case NetBUFZ => 2
    case NetNet(_, _, _, _) => 1
    case Device(dirs) => |dirs|
  }

  function DirOf(node: Node, pin: nat): Dir
    requires pin < PinCount(node)
  {
    match node
    case NetConst(_) => OUTPUT
    case NetMux(_, _) => if pin == 0 then OUTPUT else INPUT
    case NetBUFZ => if pin == 0 then OUTPUT else INPUT
    case NetNet(kind, _, _, _) => if kind == REG || kind == SUPPLY0 || kind == SUPPLY1 then OUTPUT else PASSIVE
    case Device(dirs) => dirs[pin]
  }

  /** The pins are those of nodes there are, and a constant has a value. */
  predicate Known(nodes: Nodes, list: seq<Pin>) {
    forall p <- list ::
      p.obj in nodes && p.pin < PinCount(nodes[p.obj])
      && (nodes[p.obj].NetConst? ==> nodes[p.obj].value != [])
  }

  /** A port that joins a root module to what is outside of it. */
  predicate Outside(node: Node) {
    node.NetNet? && node.root && node.port != NOT_A_PORT && node.port != POUTPUT
  }

  datatype Guess = NO_GUESS | VAR | Value(v: V)

  /** The scan for drivers: whether there is one that is not constant, or else the value
      of a supply net, if one is met. */
  function ScanDrivers(nodes: Nodes, list: seq<Pin>): Guess
    requires Known(nodes, list)
  {
    if list == [] then NO_GUESS
    else
      var node := nodes[list[0].obj];
      match DirOf(node, list[0].pin)
      case INPUT => ScanDrivers(nodes, list[1..])
      case PASSIVE => if Outside(node) then VAR else ScanDrivers(nodes, list[1..])
      case OUTPUT =>
        if node.NetNet? && node.kind == SUPPLY0 then Value(V0)
        else if node.NetNet? && node.kind == SUPPLY1 then Value(V1)
        else if !node.NetConst? then VAR
        else ScanDrivers(nodes, list[1..])
  }

  predicate Constant(nodes: Nodes, list: seq<Pin>)
    requires Known(nodes, list)
  {
    ScanDrivers(nodes, list) != VAR
  }

  predicate Supply(node: Node) {
    node.NetNet? && (node.kind == SUPPLY0 || node.kind == SUPPLY1)
  }

  /** A driver that can change: an output of anything but a constant or a supply, or a
      port that is driven from outside. */
  predicate Varies(nodes: Nodes, p: Pin)
    requires p.obj in nodes && p.pin < PinCount(nodes[p.obj])
  {
    var node := nodes[p.obj];
    match DirOf(node, p.pin)
    case INPUT => false
    case PASSIVE => Outside(node)
    case OUTPUT => !node.NetConst? && !Supply(node)
  }

  predicate SupplyBefore(nodes: Nodes, list: seq<Pin>, i: nat)
    requires Known(nodes, list) && i <= |list|
  {
    exists j: nat | j < i :: Supply(nodes[list[j].obj])
  }

  /** A nexus is constant exactly if every driver that can change has a supply before it. */
  lemma {:induction false} ConstantExact(nodes: Nodes, list: seq<Pin>)
    requires Known(nodes, list)
    ensures Constant(nodes, list) <==>
            forall i: nat | i < |list| && Varies(nodes, list[i]) :: SupplyBefore(nodes, list, i)
  {
    if list != [] {
      var rest := list[1..];
      assert list[0] in list;
      ConstantExact(nodes, rest);
      var node := nodes[list[0].obj];
      if Supply(node) {
        forall i: nat | i < |list| && Varies(nodes, list[i]) ensures SupplyBefore(nodes, list, i) {
          assert i > 0 && Supply(nodes[list[0].obj]);
        }
      } else if Varies(nodes, list[0]) {
        assert !SupplyBefore(nodes, list, 0);
      } else {
        forall i: nat | i < |rest| ensures SupplyBefore(nodes, rest, i) <==> SupplyBefore(nodes, list, i + 1) {
          BeforeShift(nodes, list, i);
        }
        AllBehind(nodes, list);
      }
    }
  }

  lemma BeforeShift(nodes: Nodes, list: seq<Pin>, i: nat)
    requires Known(nodes, list) && i < |list| - 1 && !Supply(nodes[list[0].obj])
    ensures SupplyBefore(nodes, list[1..], i) <==> SupplyBefore(nodes, list, i + 1)
  {
    var rest := list[1..];
    if SupplyBefore(nodes, rest, i) {
      var j: nat :| j < i && Supply(nodes[rest[j].obj]);
      assert list[j + 1] == rest[j];
    }
    if SupplyBefore(nodes, list, i + 1) {
      var j: nat :| j < i + 1 && Supply(nodes[list[j].obj]);
      assert j > 0 && rest[j - 1] == list[j];
    }
  }

  lemma AllBehind(nodes: Nodes, list: seq<Pin>)
    requires Known(nodes, list) && list != [] && !Varies(nodes, list[0])
    requires forall i: nat | i < |list| - 1 :: SupplyBefore(nodes, list[1..], i) <==> SupplyBefore(nodes, list, i + 1)
    ensures (forall i: nat | i < |list[1..]| && Varies(nodes, list[1..][i]) :: SupplyBefore(nodes, list[1..], i)) <==>
            (forall i: nat | i < |list| && Varies(nodes, list[i]) :: SupplyBefore(nodes, list, i))
  {
    var rest := list[1..];
    if forall i: nat | i < |rest| && Varies(nodes, rest[i]) :: SupplyBefore(nodes, rest, i) {
      forall i: nat | i < |list| && Varies(nodes, list[i]) ensures SupplyBefore(nodes, list, i) {
        var k := i - 1;
        assert i > 0 && rest[k] == list[i];
        assert SupplyBefore(nodes, rest, k);
      }
    }
    if forall i: nat | i < |list| && Varies(nodes, list[i]) :: SupplyBefore(nodes, list, i) {
      forall i: nat | i < |rest| && Varies(nodes, rest[i]) ensures SupplyBefore(nodes, rest, i) {
        var k := i + 1;
        assert rest[i] == list[k];
        assert SupplyBefore(nodes, list, k);
      }
    }
  }

  /** The scan for the value: the last constant or pull met counts, unless a supply
      ends the scan. */
  function ScanValue(nodes: Nodes, list: seq<Pin>, val: V): V
    requires Known(nodes, list)
  {
    if list == [] then val
    else
      var node := nodes[list[0].obj];
      if node.NetConst? then ScanValue(nodes, list[1..], node.value[0])
      else if !node.NetNet? then ScanValue(nodes, list[1..], val)
      else
        match node.kind
        case SUPPLY0 => V0
        case SUPPLY1 => V1
        case TRI0 => ScanValue(nodes, list[1..], V0)
        case TRI1 => ScanValue(nodes, list[1..], V1)
        case _ => ScanValue(nodes, list[1..], val)
  }

  /** What is remembered is what a fresh scan would find. */
  predicate CacheHolds(nodes: Nodes, list: seq<Pin>, driven: Guess)
    requires Known(nodes, list)
  {
    match driven
    case NO_GUESS => true
    case VAR => !Constant(nodes, list)
    case Value(v) => Constant(nodes, list) && ScanValue(nodes, list, Vz) == v
  }

  /** A supply that ends the scan for drivers also decides the value. */
  lemma {:induction false} SupplyDecides(nodes: Nodes, list: seq<Pin>, val: V)
    requires Known(nodes, list)
    ensures ScanDrivers(nodes, list).Value? ==> ScanValue(nodes, list, val) == ScanDrivers(nodes, list).v
  {
    if list != [] {
      SupplyDecides(nodes, list[1..], val);
      SupplyDecides(nodes, list[1..], V0);
      SupplyDecides(nodes, list[1..], V1);
      if nodes[list[0].obj].NetConst? {
        SupplyDecides(nodes, list[1..], nodes[list[0].obj].value[0]);
      }
    }
  }

  predicate Reads(nodes: Nodes, p: Pin) {
    p.obj in nodes && p.pin < PinCount(nodes[p.obj]) && DirOf(nodes[p.obj], p.pin) == INPUT
  }

  /** A linked input changes neither scan. */
  lemma {:induction false} InputsIgnored(nodes: Nodes, a: seq<Pin>, p: Pin, b: seq<Pin>, val: V)
    requires Known(nodes, a + [p] + b) && Known(nodes, a + b) && Reads(nodes, p)
    ensures ScanDrivers(nodes, a + [p] + b) == ScanDrivers(nodes, a + b)
    ensures ScanValue(nodes, a + [p] + b, val) == ScanValue(nodes, a + b, val)
  {
    if a == [] {
      assert a + [p] + b == [p] + b && a + b == b;
      assert ([p] + b)[1..] == b;
    } else {
      assert (a + [p] + b)[0] == a[0] && (a + b)[0] == a[0];
      assert (a + [p] + b)[1..] == a[1..] + [p] + b && (a + b)[1..] == a[1..] + b;
      InputsIgnored(nodes, a[1..], p, b, val);
      InputsIgnored(nodes, a[1..], p, b, V0);
      InputsIgnored(nodes, a[1..], p, b, V1);
      if nodes[a[0].obj].NetConst? {
        InputsIgnored(nodes, a[1..], p, b, nodes[a[0].obj].value[0]);
      }
    }
  }

  /** Scans look at the linked nodes only. */
  lemma {:induction false} ScansAgree(nodes: Nodes, nodes': Nodes, list: seq<Pin>, val: V)
    requires Known(nodes, list) && forall p <- list :: p.obj in nodes' && nodes'[p.obj] == nodes[p.obj]
    ensures Known(nodes', list)
    ensures ScanDrivers(nodes', list) == ScanDrivers(nodes, list)
    ensures ScanValue(nodes', list, val) == ScanValue(nodes, list, val)
  {
    if list != [] {
      ScansAgree(nodes, nodes', list[1..], val);
      ScansAgree(nodes, nodes', list[1..], V0);
      ScansAgree(nodes, nodes', list[1..], V1);
      if nodes[list[0].obj].NetConst? {
        ScansAgree(nodes, nodes', list[1..], nodes[list[0].obj].value[0]);
      }
    }
  }
}
