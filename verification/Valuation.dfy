/** The values a netlist allows on its nexuses, and the replacement of a constantly
    selected mux by a buffer, which allows the same ones (cprop.cc). */
module Valuation {
  import opened Verinum
  import opened Nexus

  /** The nodes, the links of each nexus, and the nexus of each linked pin. A nexus that
      lost all its links stays, without effect. */
  datatype Net = Net(nodes: Nodes, lists: map<nat, seq<Pin>>, nexus: map<Pin, nat>)

  predicate Distinct(list: seq<Pin>) {
    forall i, j | 0 <= i < j < |list| :: list[i] != list[j]
  }

  predicate WellLinked(net: Net) {
    && (forall n <- net.lists :: Known(net.nodes, net.lists[n]) && Distinct(net.lists[n]))
    && (forall n <- net.lists :: forall p <- net.lists[n] :: p in net.nexus && net.nexus[p] == n)
    && (forall p <- net.nexus :: net.nexus[p] in net.lists && p in net.lists[net.nexus[p]])
  }

  /** What the parts of a netlist mean: the outputs of devices and variables and what comes
      in from outside, the value a mux takes while its select is unknown, and how drivers of
      one nexus combine. */
  datatype Meaning = Meaning(
    device: (nat, nat, seq<Bits>) -> Bits,
    mixed: (Bits, Bits, Bits) -> Bits,
    unlinked: Bits,
    resolve: (set<NetType>, multiset<Bits>) -> Bits)

  type Valuation = nat -> Bits

  predicate Strong(kinds: set<NetType>) {
    SUPPLY0 !in kinds && SUPPLY1 !in kinds && TRI0 !in kinds && TRI1 !in kinds
  }

  /** Without pulls and supplies, drivers that agree give the nexus their value. */
  ghost predicate Sound(M: Meaning) {
    forall kinds: set<NetType>, ms: multiset<Bits>, b: Bits |
      Strong(kinds) && b in ms && (forall c <- ms :: c == b) :: M.resolve(kinds, ms) == b
  }

  function PinValue(net: Net, M: Meaning, v: Valuation, p: Pin): Bits {
    if p in net.nexus then v(net.nexus[p]) else M.unlinked
  }

  /** The pins that put a value on their nexus: outputs, assigned nets, and ports that are
      driven from outside. */
  predicate Drives(nodes: Nodes, p: Pin)
    requires p.obj in nodes && p.pin < PinCount(nodes[p.obj])
  {
    || DirOf(nodes[p.obj], p.pin) == OUTPUT
    || (nodes[p.obj].NetNet? && nodes[p.obj].lref)
    || Outside(nodes[p.obj])
  }

  predicate BinaryMux(node: Node) {
    node.NetMux? && node.size == 2 && node.selWidth == 1
  }

  function PinValues(net: Net, M: Meaning, v: Valuation, obj: nat, n: nat): seq<Bits> {
    seq(n, i requires 0 <= i < n => PinValue(net, M, v, Pin(obj, i)))
  }

  /** The value a driving pin gives. */
  function Drive(net: Net, M: Meaning, v: Valuation, p: Pin): Bits
    requires p.obj in net.nodes && p.pin < PinCount(net.nodes[p.obj])
  {
    var node := net.nodes[p.obj];
    if node.NetConst? then node.value
    else if node.NetBUFZ? then PinValue(net, M, v, Pin(p.obj, 1))
    else if BinaryMux(node) then
      var sel := PinValue(net, M, v, Pin(p.obj, 1));
      if sel != [] && sel[0] == V1 then PinValue(net, M, v, Pin(p.obj, 3))
      else if sel != [] && sel[0] == V0 then PinValue(net, M, v, Pin(p.obj, 2))
      else M.mixed(sel, PinValue(net, M, v, Pin(p.obj, 2)), PinValue(net, M, v, Pin(p.obj, 3)))
    else M.device(p.obj, p.pin, PinValues(net, M, v, p.obj, PinCount(node)))
  }

  function Drivers(net: Net, M: Meaning, v: Valuation, list: seq<Pin>): multiset<Bits>
    requires Known(net.nodes, list)
  {
    if list == [] then multiset{}
    else
      (if Drives(net.nodes, list[0]) then multiset{Drive(net, M, v, list[0])} else multiset{})
      + Drivers(net, M, v, list[1..])
  }

  function Kinds(nodes: Nodes, list: seq<Pin>): set<NetType>
    requires Known(nodes, list)
  {
    set p | p in list && nodes[p.obj].NetNet? :: nodes[p.obj].kind
  }

  /** Every nexus has the value its drivers combine to. */
  ghost predicate Satisfies(net: Net, M: Meaning, v: Valuation)
    requires WellLinked(net)
  {
    forall n <- net.lists :: Balanced(net, M, v, n)
  }

  predicate Balanced(net: Net, M: Meaning, v: Valuation, n: nat)
    requires WellLinked(net) && n in net.lists
  {
    v(n) == M.resolve(Kinds(net.nodes, net.lists[n]), Drivers(net, M, v, net.lists[n]))
  }

  ghost predicate Equivalent(net: Net, net': Net)
    requires WellLinked(net) && WellLinked(net')
  {
    && net'.lists.Keys == net.lists.Keys
    && forall M: Meaning, v: Valuation | Sound(M) :: Satisfies(net', M, v) <==> Satisfies(net, M, v)
  }

  // Constant nexuses.

  /** The constants of a list agree, and no pull or supply is on it. */
  predicate Plain(nodes: Nodes, list: seq<Pin>)
    requires Known(nodes, list)
  {
    && Strong(Kinds(nodes, list))
    && forall p, q | p in list && q in list && nodes[p.obj].NetConst? && nodes[q.obj].NetConst? ::
      nodes[p.obj].value == nodes[q.obj].value
  }

  /** An l-value of an assignment is on the nexus. */
  predicate AssignLval(nodes: Nodes, list: seq<Pin>)
    requires Known(nodes, list)
  {
    exists p <- list :: nodes[p.obj].NetNet? && nodes[p.obj].lref
  }

  /** Only constants drive such a list. */
  lemma {:induction false} ConstantDrivers(net: Net, M: Meaning, v: Valuation, list: seq<Pin>, b: Bits)
    requires Known(net.nodes, list) && Strong(Kinds(net.nodes, list))
    requires Constant(net.nodes, list) && !AssignLval(net.nodes, list)
    requires forall p <- list :: net.nodes[p.obj].NetConst? ==> net.nodes[p.obj].value == b
    ensures forall c <- Drivers(net, M, v, list) :: c == b
    ensures (exists p <- list :: net.nodes[p.obj].NetConst?) <==> b in Drivers(net, M, v, list)
  {
    if list != [] {
      var p := list[0];
      assert p in list && list == [p] + list[1..];
      if net.nodes[p.obj].NetNet? {
        assert net.nodes[p.obj].kind in Kinds(net.nodes, list);
      }
      ConstantDrivers(net, M, v, list[1..], b);
    }
  }

  /** Without pulls and supplies, the value found is that of some constant, or else `val`. */
  lemma {:induction false} ValueOfConstant(nodes: Nodes, list: seq<Pin>, val: V)
    requires Known(nodes, list) && Strong(Kinds(nodes, list))
    ensures ScanValue(nodes, list, val) == val
         || exists p <- list :: nodes[p.obj].NetConst? && ScanValue(nodes, list, val) == nodes[p.obj].value[0]
  {
    if list != [] {
      var p := list[0];
      var rest := list[1..];
      assert p in list && list == [p] + rest;
      if nodes[p.obj].NetNet? {
        assert nodes[p.obj].kind in Kinds(nodes, list);
      }
      var val' := if nodes[p.obj].NetConst? then nodes[p.obj].value[0] else val;
      ValueOfConstant(nodes, rest, val');
      assert ScanValue(nodes, list, val) == ScanValue(nodes, rest, val');
    }
  }

  /** On a plain constant nexus, a 0 or 1 that the scan finds is the value that every
      allowed valuation has there. */
  lemma ScanIsValue(net: Net, M: Meaning, v: Valuation, n: nat)
    requires WellLinked(net) && n in net.lists && Sound(M) && Balanced(net, M, v, n)
    requires Plain(net.nodes, net.lists[n]) && Constant(net.nodes, net.lists[n]) && !AssignLval(net.nodes, net.lists[n])
    requires ScanValue(net.nodes, net.lists[n], Vz) != Vz
    ensures v(n) != [] && v(n)[0] == ScanValue(net.nodes, net.lists[n], Vz)
  {
    var list := net.lists[n];
    ValueOfConstant(net.nodes, list, Vz);
    var p :| p in list && net.nodes[p.obj].NetConst? && ScanValue(net.nodes, list, Vz) == net.nodes[p.obj].value[0];
    ConstantDrivers(net, M, v, list, net.nodes[p.obj].value);
  }

  /** Two drivers of the same strength: z gives way, and differing values clash. */
  function Wired(a: V, b: V): V {
    if a == Vz then b else if b == Vz || a == b then a else Vx
  }

  function ConstantBits(nodes: Nodes, list: seq<Pin>): seq<V>
    requires Known(nodes, list)
  {
    if list == [] then []
    else
      assert list[0] in list;
      (if nodes[list[0].obj].NetConst? then [nodes[list[0].obj].value[0]] else []) + ConstantBits(nodes, list[1..])
  }

  function AllWired(bits: seq<V>): V {
    if bits == [] then Vz else Wired(bits[0], AllWired(bits[1..]))
  }

  /** The bit of a constant or pull. */
  function Gives(node: Node): seq<V>
    requires node.NetConst? ==> node.value != []
  {
    if node.NetConst? then [node.value[0]]
    else if node.NetNet? && node.kind == TRI0 then [V0]
    else if node.NetNet? && node.kind == TRI1 then [V1]
    else []
  }

  /** The constants and pulls, in the order of the list. */
  function Given(nodes: Nodes, list: seq<Pin>): seq<V>
    requires Known(nodes, list)
  {
    if list == [] then [] else assert list[0] in list; Gives(nodes[list[0].obj]) + Given(nodes, list[1..])
  }

  predicate Supplies(node: Node, kind: NetType) {
    node.NetNet? && node.kind == kind
  }

  lemma ScanStep(nodes: Nodes, list: seq<Pin>, val: V)
    requires Known(nodes, list) && list != []
    ensures var node := nodes[list[0].obj];
            && (node.NetConst? ==> node.value != [])
            && ScanValue(nodes, list, val) ==
                 if Supplies(node, SUPPLY0) then V0
                 else if Supplies(node, SUPPLY1) then V1
                 else ScanValue(nodes, list[1..], if Gives(node) == [] then val else Gives(node)[0])
  {
    assert list[0] in list;
  }

  function Last(given: seq<V>, val: V): V {
    if given == [] then val else given[|given| - 1]
  }

  /** The first supply decides; without one the last constant or pull does. */
  lemma {:induction false} ScanTakes(nodes: Nodes, list: seq<Pin>, val: V)
    requires Known(nodes, list)
    ensures var kinds, r := Kinds(nodes, list), ScanValue(nodes, list, val);
            if SUPPLY0 in kinds || SUPPLY1 in kinds then
              (r == V0 && SUPPLY0 in kinds) || (r == V1 && SUPPLY1 in kinds)
            else r == Last(Given(nodes, list), val)
  {
    if list != [] {
      ScanStep(nodes, list, val);
      KindsFirst(nodes, list);
      var node, rest := nodes[list[0].obj], list[1..];
      if !Supplies(node, SUPPLY0) && !Supplies(node, SUPPLY1) {
        ScanTakes(nodes, rest, Last(Gives(node), val));
      }
    }
  }

  lemma KindsFirst(nodes: Nodes, list: seq<Pin>)
    requires Known(nodes, list) && list != []
    ensures var node := nodes[list[0].obj];
            Kinds(nodes, list) == (if node.NetNet? then {node.kind} else {}) + Kinds(nodes, list[1..])
  {
    var p, rest, node := list[0], list[1..], nodes[list[0].obj];
    assert p in list && list == [p] + rest;
    var all := (if node.NetNet? then {node.kind} else {}) + Kinds(nodes, rest);
    forall k | k in Kinds(nodes, list) ensures k in all {
      var q :| q in list && nodes[q.obj].NetNet? && nodes[q.obj].kind == k;
      assert q == p || q in rest;
    }
  }

  lemma {:induction false} GivenAre(nodes: Nodes, list: seq<Pin>)
    requires Known(nodes, list)
    ensures forall v :: v in Given(nodes, list) <==>
              || v in ConstantBits(nodes, list)
              || (v == V0 && TRI0 in Kinds(nodes, list))
              || (v == V1 && TRI1 in Kinds(nodes, list))
  {
    if list != [] {
      assert list[0] in list;
      KindsFirst(nodes, list);
      GivenAre(nodes, list[1..]);
    }
  }

  lemma {:induction false} WiredExact(bits: seq<V>, v: V)
    requires v == V0 || v == V1
    ensures AllWired(bits) == v <==> v in bits && forall b <- bits :: b == v || b == Vz
    ensures AllWired(bits) == Vz <==> forall b <- bits :: b == Vz
  {
    if bits != [] {
      var rest := bits[1..];
      assert bits[0] in bits && forall b <- bits :: b == bits[0] || b in rest;
      assert forall b <- rest :: b in bits;
      WiredExact(bits[1..], v);
      WiredExact(bits[1..], if v == V0 then V1 else V0);
    }
  }

  function Both(zero: bool, one: bool, none: V): V {
    if zero && one then Vx else if zero then V0 else if one then V1 else none
  }

  /** The value the drivers combine to: supplies are the strongest, then come the
      constants, and pulls count where these are z. */
  function Resolved(nodes: Nodes, list: seq<Pin>): V
    requires Known(nodes, list)
  {
    var kinds, wired := Kinds(nodes, list), AllWired(ConstantBits(nodes, list));
    if SUPPLY0 in kinds || SUPPLY1 in kinds then Both(SUPPLY0 in kinds, SUPPLY1 in kinds, Vz)
    else if wired != Vz then wired
    else Both(TRI0 in kinds, TRI1 in kinds, Vz)
  }

  /** Nothing stands against a value: with a supply not the other one, and else no constant
      that differs and, if no constant gives the value, not the other pull. */
  predicate Unopposed(nodes: Nodes, list: seq<Pin>, val: V)
    requires Known(nodes, list)
  {
    var kinds, bits := Kinds(nodes, list), ConstantBits(nodes, list);
    if SUPPLY0 in kinds || SUPPLY1 in kinds then !(SUPPLY0 in kinds && SUPPLY1 in kinds)
    else
      && (forall b <- bits :: b == val || b == Vz)
      && (val in bits || (if val == V0 then TRI1 else TRI0) !in kinds)
  }

  /** The first supply counts, or else the last constant or pull. A 0 or 1 found so is the
      value of the nexus exactly when nothing stands against it. */
  lemma ScanExact(nodes: Nodes, list: seq<Pin>)
    requires Known(nodes, list)
    ensures var val := ScanValue(nodes, list, Vz);
            val == V0 || val == V1 ==> (Resolved(nodes, list) == val <==> Unopposed(nodes, list, val))
  {
    ScanTakes(nodes, list, Vz);
    GivenAre(nodes, list);
    var val, given, bits := ScanValue(nodes, list, Vz), Given(nodes, list), ConstantBits(nodes, list);
    if val == V0 || val == V1 {
      WiredExact(bits, val);
      assert given != [] ==> given[|given| - 1] in given;
    }
  }

  /** Without pulls and supplies: exactly when no constant differs, z aside. */
  lemma ScanExactStrong(nodes: Nodes, list: seq<Pin>)
    requires Known(nodes, list) && Strong(Kinds(nodes, list))
    ensures var val, bits := ScanValue(nodes, list, Vz), ConstantBits(nodes, list);
            val == V0 || val == V1 ==> (AllWired(bits) == val <==> forall b <- bits :: b == val || b == Vz)
  {
    ScanExact(nodes, list);
    var val, bits := ScanValue(nodes, list, Vz), ConstantBits(nodes, list);
    if val == V0 || val == V1 {
      WiredExact(bits, val);
      ScanTakes(nodes, list, Vz);
      GivenAre(nodes, list);
      var given := Given(nodes, list);
      assert given != [] ==> given[|given| - 1] in given;
    }
  }

  /** A constant 0 and then a pull to 1: the scan finds 1, where the constant is stronger. */
  lemma PullWins(nodes: Nodes)
    requires nodes == map[0 := NetConst([V0]), 1 := NetNet(TRI1, NOT_A_PORT, false, false)]
    ensures var list := [Pin(0, 0), Pin(1, 0)];
            Known(nodes, list) && Constant(nodes, list)
            && ScanValue(nodes, list, Vz) == V1 && Resolved(nodes, list) == V0
  {
    var list := [Pin(0, 0), Pin(1, 0)];
    var rest := list[1..];
    assert rest == [Pin(1, 0)] && rest[1..] == [];
    assert ScanValue(nodes, rest, V0) == ScanValue(nodes, rest[1..], V1) == V1;
    assert ScanDrivers(nodes, rest) == ScanDrivers(nodes, rest[1..]) == NO_GUESS;
    assert ConstantBits(nodes, rest) == ConstantBits(nodes, rest[1..]) == [];
    assert ConstantBits(nodes, list) == [V0] + ConstantBits(nodes, rest) == [V0];
    assert [V0][1..] == [] && AllWired([V0]) == V0;
    assert Kinds(nodes, rest[1..]) == {};
    KindsFirst(nodes, rest);
    KindsFirst(nodes, list);
  }

  /** A 0 and then a 1 on the same nexus: the scan finds 1, where the wires clash. */
  lemma LastConstantWins(nodes: Nodes)
    requires nodes == map[0 := NetConst([V0]), 1 := NetConst([V1])]
    ensures var list := [Pin(0, 0), Pin(1, 0)];
            Known(nodes, list) && ScanValue(nodes, list, Vz) == V1 && AllWired(ConstantBits(nodes, list)) == Vx
  {
    var list := [Pin(0, 0), Pin(1, 0)];
    var rest := list[1..];
    assert rest == [Pin(1, 0)] && rest[1..] == [];
    assert ScanValue(nodes, rest, V0) == ScanValue(nodes, rest[1..], V1) == V1;
    assert ConstantBits(nodes, rest) == [V1];
    assert ConstantBits(nodes, list) == [V0] + [V1];
    assert AllWired([V1]) == V1;
    assert ([V0] + [V1])[1..] == [V1];
  }
}
