/** A binary mux whose select is constant becomes a buffer from the selected input. */
module MuxRewrite {
  import opened Verinum
  import opened Nexus
  import opened Valuation

  /** The links of a list that are not of the node `m`. */
  function Without(list: seq<Pin>, m: nat): seq<Pin> {
    if list == [] then []
    else if list[0].obj == m then Without(list[1..], m)
    else [list[0]] + Without(list[1..], m)
  }

  lemma {:induction false} WithoutHolds(list: seq<Pin>, m: nat)
    ensures forall p :: p in Without(list, m) <==> p in list && p.obj != m
  {
    if list != [] {
      WithoutHolds(list[1..], m);
    }
  }

  lemma {:induction false} WithoutDistinct(list: seq<Pin>, m: nat)
    requires Distinct(list)
    ensures Distinct(Without(list, m))
  {
    if list != [] {
      assert Distinct(list[1..]);
      WithoutHolds(list[1..], m);
      WithoutDistinct(list[1..], m);
      assert list[0] !in list[1..];
    }
  }

  /** A mux with all its pins linked. */
  predicate LinkedMux(net: Net, m: nat) {
    m in net.nodes && BinaryMux(net.nodes[m]) && forall i: nat | i < 4 :: Pin(m, i) in net.nexus
  }

  /** What the links of a new buffer `t` add to the front of a nexus. */
  function Added(net: Net, m: nat, k: nat, t: nat, n: nat): seq<Pin>
    requires LinkedMux(net, m) && k < 2
  {
    (if n == net.nexus[Pin(m, 2 + k)] then [Pin(t, 1)] else [])
    + (if n == net.nexus[Pin(m, 0)] then [Pin(t, 0)] else [])
  }

  /** The mux `m` replaced by the buffer `t` from its data input `k`. */
  function Replaced(net: Net, m: nat, k: nat, t: nat): Net
    requires LinkedMux(net, m) && k < 2
  {
    Net(
      (net.nodes - {m})[t := NetBUFZ],
      map n | n in net.lists :: Added(net, m, k, t, n) + Without(net.lists[n], m),
      (map p | p in net.nexus && p.obj != m :: net.nexus[p])
        [Pin(t, 0) := net.nexus[Pin(m, 0)]][Pin(t, 1) := net.nexus[Pin(m, 2 + k)]])
  }

  ghost predicate Fresh(net: Net, t: nat) {
    t !in net.nodes
  }

  lemma FreshUnlinked(net: Net, t: nat)
    requires WellLinked(net) && Fresh(net, t)
    ensures forall p <- net.nexus :: p.obj != t
    ensures forall n <- net.lists :: forall p <- net.lists[n] :: p.obj != t
  {
  }

  lemma ReplacedWellLinked(net: Net, m: nat, k: nat, t: nat)
    requires WellLinked(net) && LinkedMux(net, m) && k < 2 && Fresh(net, t)
    ensures WellLinked(Replaced(net, m, k, t))
  {
    var net' := Replaced(net, m, k, t);
    FreshUnlinked(net, t);
    forall n | n in net'.lists
      ensures Known(net'.nodes, net'.lists[n]) && Distinct(net'.lists[n])
      ensures forall p <- net'.lists[n] :: p in net'.nexus && net'.nexus[p] == n
    {
      WithoutDistinct(net.lists[n], m);
      ListOf(net, m, k, t, n);
    }
    forall p: Pin | p in net'.nexus ensures net'.nexus[p] in net'.lists && p in net'.lists[net'.nexus[p]] {
      if p.obj == t {
        assert p in Added(net, m, k, t, net'.nexus[p]);
      } else {
        WithoutHolds(net.lists[net.nexus[p]], m);
        assert p in Without(net.lists[net.nexus[p]], m);
      }
    }
  }

  lemma DistinctAppend(a: seq<Pin>, b: seq<Pin>)
    requires Distinct(a) && Distinct(b) && forall p <- a :: p !in b
    ensures Distinct(a + b)
  {
    forall i, j | 0 <= i < j < |a + b| ensures (a + b)[i] != (a + b)[j] {
      if i < |a| <= j {
        assert (a + b)[i] in a && (a + b)[j] in b;
      }
    }
  }

  lemma ListOf(net: Net, m: nat, k: nat, t: nat, n: nat)
    requires WellLinked(net) && LinkedMux(net, m) && k < 2 && Fresh(net, t) && n in net.lists
    ensures var list := Replaced(net, m, k, t).lists[n]; var net' := Replaced(net, m, k, t);
            && Known(net'.nodes, list) && Distinct(list)
            && (forall p <- list :: p in net'.nexus && net'.nexus[p] == n)
  {
    WithoutHolds(net.lists[n], m);
    FreshUnlinked(net, t);
    WithoutDistinct(net.lists[n], m);
    var a, b := Added(net, m, k, t, n), Without(net.lists[n], m);
    DistinctAppend(a, b);
    var net' := Replaced(net, m, k, t);
    forall p: Pin | p in a + b
      ensures p.obj in net'.nodes && p.pin < PinCount(net'.nodes[p.obj])
      ensures net'.nodes[p.obj].NetConst? ==> net'.nodes[p.obj].value != []
      ensures p in net'.nexus && net'.nexus[p] == n
    {
      if p in b {
        assert net'.nodes[p.obj] == net.nodes[p.obj];
      }
    }
  }

  /** The node is the same in both netlists, and linked the same. */
  ghost predicate SameNode(net: Net, net': Net, obj: nat) {
    && obj in net.nodes && obj in net'.nodes && net.nodes[obj] == net'.nodes[obj]
    && forall i: nat :: LinkOf(net, Pin(obj, i)) == LinkOf(net', Pin(obj, i))
  }

  function LinkOf(net: Net, p: Pin): int {
    if p in net.nexus then net.nexus[p] else -1
  }

  lemma SameDrive(net: Net, net': Net, M: Meaning, v: Valuation, p: Pin)
    requires SameNode(net, net', p.obj) && p.pin < PinCount(net.nodes[p.obj])
    ensures Drive(net, M, v, p) == Drive(net', M, v, p)
  {
    forall i: nat ensures PinValue(net, M, v, Pin(p.obj, i)) == PinValue(net', M, v, Pin(p.obj, i)) {
      assert LinkOf(net, Pin(p.obj, i)) == LinkOf(net', Pin(p.obj, i));
    }
    var n := PinCount(net.nodes[p.obj]);
    assert PinValues(net, M, v, p.obj, n) == PinValues(net', M, v, p.obj, n);
  }

  lemma {:induction false} SameDrivers(net: Net, net': Net, M: Meaning, v: Valuation, list: seq<Pin>)
    requires Known(net.nodes, list) && forall p <- list :: SameNode(net, net', p.obj)
    ensures Known(net'.nodes, list) && Drivers(net, M, v, list) == Drivers(net', M, v, list)
    ensures Kinds(net.nodes, list) == Kinds(net'.nodes, list)
  {
    if list != [] {
      SameDrive(net, net', M, v, list[0]);
      SameDrivers(net, net', M, v, list[1..]);
    }
    assert forall p <- list :: net.nodes[p.obj] == net'.nodes[p.obj];
  }

  lemma {:induction false} DriversAppend(net: Net, M: Meaning, v: Valuation, a: seq<Pin>, b: seq<Pin>)
    requires Known(net.nodes, a) && Known(net.nodes, b)
    ensures Known(net.nodes, a + b)
    ensures Drivers(net, M, v, a + b) == Drivers(net, M, v, a) + Drivers(net, M, v, b)
  {
    if a == [] {
      assert a + b == b;
    } else {
      assert (a + b)[1..] == a[1..] + b;
      DriversAppend(net, M, v, a[1..], b);
    }
  }

  /** Of the links of a mux, only the result gives a value. */
  lemma {:induction false} WithoutDrivers(net: Net, M: Meaning, v: Valuation, list: seq<Pin>, m: nat)
    requires Known(net.nodes, list) && Distinct(list) && m in net.nodes && BinaryMux(net.nodes[m])
    ensures Known(net.nodes, Without(list, m))
    ensures Drivers(net, M, v, list) == Drivers(net, M, v, Without(list, m))
              + (if Pin(m, 0) in list then multiset{Drive(net, M, v, Pin(m, 0))} else multiset{})
  {
    WithoutHolds(list, m);
    if list != [] {
      var p, rest := list[0], list[1..];
      assert Distinct(rest) && p !in rest;
      WithoutDrivers(net, M, v, rest, m);
      var kept := Without(rest, m);
      var here := if Pin(m, 0) in rest then multiset{Drive(net, M, v, Pin(m, 0))} else multiset{};
      if p == Pin(m, 0) {
        assert Drivers(net, M, v, list) == multiset{Drive(net, M, v, p)} + Drivers(net, M, v, kept);
      } else if p.obj == m {
        assert Drivers(net, M, v, list) == Drivers(net, M, v, kept) + here;
      } else {
        var own := if Drives(net.nodes, p) then multiset{Drive(net, M, v, p)} else multiset{};
        assert ([p] + kept)[1..] == kept;
        assert Drivers(net, M, v, [p] + kept) == own + Drivers(net, M, v, kept);
        assert Drivers(net, M, v, list) == own + Drivers(net, M, v, kept) + here;
      }
    }
  }

  /** The buffer gives the mux's value where the mux gave it, so each nexus is driven by
      the same values. */
  lemma ReplacedDrivers(net: Net, m: nat, k: nat, t: nat, M: Meaning, v: Valuation, n: nat)
    requires WellLinked(net) && LinkedMux(net, m) && k < 2 && Fresh(net, t) && n in net.lists
    requires Drive(net, M, v, Pin(m, 0)) == PinValue(net, M, v, Pin(m, 2 + k))
    ensures var net' := Replaced(net, m, k, t);
            && Known(net'.nodes, net'.lists[n])
            && Drivers(net', M, v, net'.lists[n]) == Drivers(net, M, v, net.lists[n])
            && Kinds(net'.nodes, net'.lists[n]) == Kinds(net.nodes, net.lists[n])
  {
    WithoutHolds(net.lists[n], m);
    var net' := Replaced(net, m, k, t);
    FreshUnlinked(net, t);
    ListOf(net, m, k, t, n);
    var a, b := Added(net, m, k, t, n), Without(net.lists[n], m);
    WithoutDrivers(net, M, v, net.lists[n], m);
    forall p: Pin | p in b ensures SameNode(net, net', p.obj) {
      UntouchedNode(net, m, k, t, p.obj);
    }
    SameDrivers(net, net', M, v, b);
    DriversAppend(net', M, v, a, b);
    AddedDrivers(net, m, k, t, M, v, n);
    ReplacedKinds(net, m, k, t, n);
    assert Pin(m, 0) in net.lists[n] <==> n == net.nexus[Pin(m, 0)];
  }

  lemma UntouchedNode(net: Net, m: nat, k: nat, t: nat, obj: nat)
    requires LinkedMux(net, m) && k < 2 && obj in net.nodes && obj != m && obj != t
    ensures SameNode(net, Replaced(net, m, k, t), obj)
  {
  }

  lemma AddedDrivers(net: Net, m: nat, k: nat, t: nat, M: Meaning, v: Valuation, n: nat)
    requires WellLinked(net) && LinkedMux(net, m) && k < 2 && Fresh(net, t)
    ensures var net' := Replaced(net, m, k, t); var a := Added(net, m, k, t, n);
            && Known(net'.nodes, a)
            && Drivers(net', M, v, a)
               == if n == net.nexus[Pin(m, 0)] then multiset{PinValue(net, M, v, Pin(m, 2 + k))} else multiset{}
  {
    var net' := Replaced(net, m, k, t);
    BufferDrive(net, m, k, t, M, v);
    assert Pin(m, 2 + k) in net.nexus;
    FrontDrivers(net', M, v, t, n == net.nexus[Pin(m, 2 + k)], n == net.nexus[Pin(m, 0)]);
  }

  lemma BufferDrive(net: Net, m: nat, k: nat, t: nat, M: Meaning, v: Valuation)
    requires LinkedMux(net, m) && k < 2
    ensures var net' := Replaced(net, m, k, t);
            && t in net'.nodes && net'.nodes[t] == NetBUFZ
            && Drive(net', M, v, Pin(t, 0)) == PinValue(net, M, v, Pin(m, 2 + k))
  {
    assert Pin(m, 2 + k) in net.nexus;
  }

  lemma FrontDrivers(net: Net, M: Meaning, v: Valuation, t: nat, input: bool, output: bool)
    requires t in net.nodes && net.nodes[t] == NetBUFZ
    ensures var a := (if input then [Pin(t, 1)] else []) + (if output then [Pin(t, 0)] else []);
            && Known(net.nodes, a)
            && Drivers(net, M, v, a) == if output then multiset{Drive(net, M, v, Pin(t, 0))} else multiset{}
  {
    var a1 := if input then [Pin(t, 1)] else [];
    var a0 := if output then [Pin(t, 0)] else [];
    DriversOne(net, M, v, Pin(t, 1));
    DriversOne(net, M, v, Pin(t, 0));
    DriversAppend(net, M, v, a1, a0);
  }

  lemma DriversOne(net: Net, M: Meaning, v: Valuation, p: Pin)
    requires Known(net.nodes, [p])
    ensures Drivers(net, M, v, [p]) == if Drives(net.nodes, p) then multiset{Drive(net, M, v, p)} else multiset{}
  {
    assert [p][1..] == [];
  }

  /** Beside the links of the mux and the buffer, a nexus keeps what it had. */
  lemma ReplacedElements(net: Net, m: nat, k: nat, t: nat, n: nat)
    requires WellLinked(net) && LinkedMux(net, m) && k < 2 && Fresh(net, t) && n in net.lists
    ensures var net' := Replaced(net, m, k, t);
            && Known(net'.nodes, net'.lists[n]) && net'.nodes[t] == NetBUFZ
            && (forall p <- net.lists[n] :: p.obj != m ==> p in net'.lists[n] && net'.nodes[p.obj] == net.nodes[p.obj])
            && (forall p <- net'.lists[n] :: p.obj != t ==> p in net.lists[n] && net'.nodes[p.obj] == net.nodes[p.obj])
  {
    WithoutHolds(net.lists[n], m);
    ListOf(net, m, k, t, n);
    FreshUnlinked(net, t);
  }

  lemma ReplacedKinds(net: Net, m: nat, k: nat, t: nat, n: nat)
    requires WellLinked(net) && LinkedMux(net, m) && k < 2 && Fresh(net, t) && n in net.lists
    ensures var net' := Replaced(net, m, k, t);
            && Known(net'.nodes, net'.lists[n])
            && Kinds(net'.nodes, net'.lists[n]) == Kinds(net.nodes, net.lists[n])
  {
    ReplacedElements(net, m, k, t, n);
    var nodes, nodes' := net.nodes, Replaced(net, m, k, t).nodes;
    var list, list' := net.lists[n], Replaced(net, m, k, t).lists[n];
    forall p: Pin | p in list && nodes[p.obj].NetNet? ensures nodes[p.obj].kind in Kinds(nodes', list') {
      assert p in list' && nodes'[p.obj].NetNet?;
    }
    forall p: Pin | p in list' && nodes'[p.obj].NetNet? ensures nodes'[p.obj].kind in Kinds(nodes, list) {
      assert p in list && nodes[p.obj].NetNet?;
    }
  }

  /** A constant list does not hold a mux result, and does without the mux. */
  lemma {:induction false} WithoutScans(nodes: Nodes, list: seq<Pin>, m: nat, val: V)
    requires Known(nodes, list) && Strong(Kinds(nodes, list)) && Constant(nodes, list)
    requires m in nodes && nodes[m].NetMux?
    ensures Known(nodes, Without(list, m)) && Constant(nodes, Without(list, m))
    ensures ScanValue(nodes, Without(list, m), val) == ScanValue(nodes, list, val)
    ensures Pin(m, 0) !in list
  {
    WithoutHolds(list, m);
    if list != [] {
      var p, rest := list[0], list[1..];
      assert list == [p] + rest;
      if nodes[p.obj].NetNet? {
        assert nodes[p.obj].kind in Kinds(nodes, list);
      }
      WithoutScans(nodes, rest, m, if nodes[p.obj].NetConst? then nodes[p.obj].value[0] else val);
      if p.obj != m {
        assert ([p] + Without(rest, m))[1..] == Without(rest, m);
      }
    }
  }

  /** The select of a mux is linked to a plain nexus that is constant, at the value that
      selects the data input `k`. */
  predicate Selects(net: Net, m: nat, k: nat)
    requires WellLinked(net)
  {
    && LinkedMux(net, m) && k < 2
    && var list := net.lists[net.nexus[Pin(m, 1)]];
      && Constant(net.nodes, list) && !AssignLval(net.nodes, list)
      && ScanValue(net.nodes, list, Vz) == (if k == 1 then V1 else V0)
  }

  predicate PlainSelect(net: Net, m: nat)
    requires WellLinked(net) && LinkedMux(net, m)
  {
    Plain(net.nodes, net.lists[net.nexus[Pin(m, 1)]])
  }

  /** The replacement leaves the select's nexus as constant as it was. */
  lemma SelectStays(net: Net, m: nat, k: nat, t: nat)
    requires WellLinked(net) && Selects(net, m, k) && PlainSelect(net, m) && Fresh(net, t)
    ensures WellLinked(Replaced(net, m, k, t))
    ensures var net' := Replaced(net, m, k, t); var n := net.nexus[Pin(m, 1)];
            && n in net'.lists && Plain(net'.nodes, net'.lists[n])
            && Constant(net'.nodes, net'.lists[n]) && !AssignLval(net'.nodes, net'.lists[n])
            && ScanValue(net'.nodes, net'.lists[n], Vz) == ScanValue(net.nodes, net.lists[n], Vz)
  {
    ReplacedWellLinked(net, m, k, t);
    var net', n := Replaced(net, m, k, t), net.nexus[Pin(m, 1)];
    assert Pin(m, 1) in net.nexus && n in net.lists;
    var list, rest := net.lists[n], Without(net.lists[n], m);
    WithoutHolds(list, m);
    WithoutScans(net.nodes, list, m, Vz);
    FreshUnlinked(net, t);
    forall p: Pin | p in rest ensures p.obj in net'.nodes && net'.nodes[p.obj] == net.nodes[p.obj] {
    }
    ScansAgree(net.nodes, net'.nodes, rest, Vz);
    assert Pin(m, 0) in net.nexus;
    AddedScans(net, m, k, t, n, rest);
    ReplacedKinds(net, m, k, t, n);
    ReplacedValues(net, m, k, t, n);
  }

  lemma AddedScans(net: Net, m: nat, k: nat, t: nat, n: nat, rest: seq<Pin>)
    requires LinkedMux(net, m) && k < 2 && n != net.nexus[Pin(m, 0)]
    requires Known(Replaced(net, m, k, t).nodes, rest)
    ensures var nodes := Replaced(net, m, k, t).nodes; var list := Added(net, m, k, t, n) + rest;
            && Known(nodes, list)
            && ScanDrivers(nodes, list) == ScanDrivers(nodes, rest)
            && ScanValue(nodes, list, Vz) == ScanValue(nodes, rest, Vz)
  {
    var a := Added(net, m, k, t, n);
    if a == [] {
      assert a + rest == rest;
    } else {
      assert a == [Pin(t, 1)];
      assert [] + [Pin(t, 1)] + rest == a + rest && [] + rest == rest;
      InputsIgnored(Replaced(net, m, k, t).nodes, [], Pin(t, 1), rest, Vz);
    }
  }

  lemma ReplacedValues(net: Net, m: nat, k: nat, t: nat, n: nat)
    requires WellLinked(net) && LinkedMux(net, m) && k < 2 && Fresh(net, t) && n in net.lists
    ensures Known(Replaced(net, m, k, t).nodes, Replaced(net, m, k, t).lists[n])
    ensures Plain(net.nodes, net.lists[n]) ==> Plain(Replaced(net, m, k, t).nodes, Replaced(net, m, k, t).lists[n])
    ensures AssignLval(Replaced(net, m, k, t).nodes, Replaced(net, m, k, t).lists[n])
            ==> AssignLval(net.nodes, net.lists[n])
  {
    WithoutHolds(net.lists[n], m);
    ReplacedKinds(net, m, k, t, n);
    ReplacedElements(net, m, k, t, n);
  }

  /** The set of valuations the netlist allows is the same after the replacement. */
  lemma ReplacedEquivalent(net: Net, m: nat, k: nat, t: nat)
    requires WellLinked(net) && Selects(net, m, k) && PlainSelect(net, m) && Fresh(net, t)
    ensures WellLinked(Replaced(net, m, k, t)) && Equivalent(net, Replaced(net, m, k, t))
  {
    var net' := Replaced(net, m, k, t);
    SelectStays(net, m, k, t);
    forall M: Meaning, v: Valuation | Sound(M)
      ensures Satisfies(net', M, v) <==> Satisfies(net, M, v)
    {
      ReplacedSatisfied(net, m, k, t, M, v);
    }
  }

  lemma ReplacedSatisfied(net: Net, m: nat, k: nat, t: nat, M: Meaning, v: Valuation)
    requires WellLinked(net) && Selects(net, m, k) && PlainSelect(net, m) && Fresh(net, t) && Sound(M)
    ensures WellLinked(Replaced(net, m, k, t))
    ensures Satisfies(Replaced(net, m, k, t), M, v) <==> Satisfies(net, M, v)
  {
    var net', s := Replaced(net, m, k, t), net.nexus[Pin(m, 1)];
    SelectStays(net, m, k, t);
    assert Pin(m, 1) in net.nexus && s in net.lists;
    if Balanced(net, M, v, s) || Balanced(net', M, v, s) {
      if Balanced(net, M, v, s) {
        ScanIsValue(net, M, v, s);
      } else {
        ScanIsValue(net', M, v, s);
      }
      SelectedDrive(net, m, k, M, v);
      forall n | n in net.lists ensures Balanced(net, M, v, n) <==> Balanced(net', M, v, n) {
        ReplacedDrivers(net, m, k, t, M, v, n);
      }
    }
  }

  lemma SelectedDrive(net: Net, m: nat, k: nat, M: Meaning, v: Valuation)
    requires LinkedMux(net, m) && k < 2
    requires var b := v(net.nexus[Pin(m, 1)]); b != [] && b[0] == if k == 1 then V1 else V0
    ensures Drive(net, M, v, Pin(m, 0)) == PinValue(net, M, v, Pin(m, 2 + k))
  {
  }
}
