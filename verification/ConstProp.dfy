/** Constant propagation over the netlist, in place (cprop.cc, link_const.cc, net_link.cc). */
module ConstProp {
  import opened Verinum
  import opened Nexus
  import opened Valuation
  import opened MuxRewrite

  function Remove(list: seq<Pin>, p: Pin): seq<Pin> {
    if list == [] then []
    else if list[0] == p then list[1..]
    else [list[0]] + Remove(list[1..], p)
  }

  lemma {:induction false} RemoveHolds(list: seq<Pin>, p: Pin)
    ensures forall q <- Remove(list, p) :: q in list
    ensures p !in list ==> Remove(list, p) == list
  {
    if list != [] {
      RemoveHolds(list[1..], p);
    }
  }

  lemma {:induction false} RemoveDistinct(list: seq<Pin>, p: Pin)
    requires Distinct(list)
    ensures Distinct(Remove(list, p)) && p !in Remove(list, p)
    ensures forall q <- list :: q != p ==> q in Remove(list, p)
  {
    if list != [] {
      assert Distinct(list[1..]);
      RemoveHolds(list[1..], p);
      if list[0] != p {
        RemoveDistinct(list[1..], p);
      }
      assert list[0] !in list[1..];
    }
  }

  /** Removing an input changes neither scan. */
  lemma {:induction false} RemoveScans(nodes: Nodes, list: seq<Pin>, p: Pin)
    requires Known(nodes, list) && p in list && Reads(nodes, p)
    ensures Known(nodes, Remove(list, p))
    ensures ScanDrivers(nodes, Remove(list, p)) == ScanDrivers(nodes, list)
    ensures ScanValue(nodes, Remove(list, p), Vz) == ScanValue(nodes, list, Vz)
  {
    var i := RemoveSplit(list, p);
    RemoveHolds(list, p);
    assert list == list[..i] + [p] + list[i + 1..];
    InputsIgnored(nodes, list[..i], p, list[i + 1..], Vz);
  }

  lemma {:induction false} RemoveSplit(list: seq<Pin>, p: Pin) returns (i: nat)
    requires p in list
    ensures i < |list| && list[i] == p && Remove(list, p) == list[..i] + list[i + 1..]
  {
    if list[0] == p {
      i := 0;
    } else {
      var i' := RemoveSplit(list[1..], p);
      i := i' + 1;
      assert list[..i] == [list[0]] + list[1..][..i'] && list[i + 1..] == list[1..][i' + 1..];
    }
  }

  /** The caches of all nexuses hold. */
  predicate Remembered(net: Net, driven: map<nat, Guess>) {
    && driven.Keys == net.lists.Keys
    && forall n <- net.lists :: Known(net.nodes, net.lists[n]) && CacheHolds(net.nodes, net.lists[n], driven[n])
  }

  // The links, one at a time.

  function Relinked(net: Net, n: nat, p: Pin): Net
    requires n in net.lists
  {
    net.(lists := net.lists[n := [p] + net.lists[n]], nexus := net.nexus[p := n])
  }

  function Unlinked(net: Net, p: Pin): Net
    requires p in net.nexus && net.nexus[p] in net.lists
  {
    var n := net.nexus[p];
    net.(lists := net.lists[n := Remove(net.lists[n], p)], nexus := net.nexus - {p})
  }

  lemma RelinkedWell(net: Net, n: nat, p: Pin)
    requires WellLinked(net) && n in net.lists && p !in net.nexus
    requires Known(net.nodes, [p])
    ensures WellLinked(Relinked(net, n, p))
  {
    var net' := Relinked(net, n, p);
    assert p !in net.lists[n];
    assert Distinct(net'.lists[n]) by { assert net'.lists[n][1..] == net.lists[n]; }
    assert p in [p];
    forall q: Pin | q in net'.lists[n]
      ensures q.obj in net.nodes && q.pin < PinCount(net.nodes[q.obj])
      ensures net.nodes[q.obj].NetConst? ==> net.nodes[q.obj].value != []
    {
      assert q == p || q in net.lists[n];
    }
  }

  lemma UnlinkedWell(net: Net, p: Pin)
    requires WellLinked(net) && p in net.nexus
    ensures WellLinked(Unlinked(net, p))
  {
    RemoveDistinct(net.lists[net.nexus[p]], p);
    RemoveHolds(net.lists[net.nexus[p]], p);
  }

  /** Whether to forget what is remembered when a link comes or goes. */
  function Forget(nodes: Nodes, driven: map<nat, Guess>, n: nat, p: Pin): map<nat, Guess>
    requires p.obj in nodes && p.pin < PinCount(nodes[p.obj])
  {
    if DirOf(nodes[p.obj], p.pin) != INPUT then driven[n := NO_GUESS] else driven
  }

  lemma RelinkedRemembered(net: Net, driven: map<nat, Guess>, n: nat, p: Pin)
    requires WellLinked(net) && Remembered(net, driven) && n in net.lists && p !in net.nexus && Known(net.nodes, [p])
    requires p.obj in net.nodes && p.pin < PinCount(net.nodes[p.obj])
    ensures Remembered(Relinked(net, n, p), Forget(net.nodes, driven, n, p))
  {
    RelinkedWell(net, n, p);
    var net', driven' := Relinked(net, n, p), Forget(net.nodes, driven, n, p);
    var list := net.lists[n];
    if Reads(net.nodes, p) {
      assert [] + [p] + list == [p] + list && [] + list == list;
      InputsIgnored(net.nodes, [], p, list, Vz);
      assert CacheHolds(net.nodes, [p] + list, driven[n]);
    }
    forall x | x in net'.lists ensures CacheHolds(net'.nodes, net'.lists[x], driven'[x]) {
      if x != n {
        assert net'.lists[x] == net.lists[x];
      }
    }
  }

  lemma UnlinkedRemembered(net: Net, driven: map<nat, Guess>, p: Pin)
    requires WellLinked(net) && Remembered(net, driven) && p in net.nexus
    requires p.obj in net.nodes && p.pin < PinCount(net.nodes[p.obj])
    ensures Remembered(Unlinked(net, p), Forget(net.nodes, driven, net.nexus[p], p))
  {
    UnlinkedWell(net, p);
    if Reads(net.nodes, p) {
      RemoveScans(net.nodes, net.lists[net.nexus[p]], p);
    }
  }

  // Nodes that come and go.

  lemma NodesAgree(net: Net, driven: map<nat, Guess>, nodes': Nodes)
    requires WellLinked(net) && Remembered(net, driven)
    requires forall n <- net.lists :: forall p <- net.lists[n] :: p.obj in nodes' && nodes'[p.obj] == net.nodes[p.obj]
    ensures WellLinked(net.(nodes := nodes')) && Remembered(net.(nodes := nodes'), driven)
  {
    forall n | n in net.lists
      ensures Known(nodes', net.lists[n]) && CacheHolds(nodes', net.lists[n], driven[n])
    {
      ScansAgree(net.nodes, nodes', net.lists[n], Vz);
    }
  }

  /** A list without the first `i` pins of the node `m`. */
  function WithoutPins(list: seq<Pin>, m: nat, i: nat): seq<Pin> {
    if list == [] then []
    else if list[0].obj == m && list[0].pin < i then WithoutPins(list[1..], m, i)
    else [list[0]] + WithoutPins(list[1..], m, i)
  }

  lemma {:induction false} WithoutPinsHolds(list: seq<Pin>, m: nat, i: nat)
    ensures forall p :: p in WithoutPins(list, m, i) <==> p in list && !(p.obj == m && p.pin < i)
  {
    if list != [] {
      WithoutPinsHolds(list[1..], m, i);
    }
  }

  lemma {:induction false} WithoutStep(list: seq<Pin>, m: nat, i: nat)
    requires Distinct(list)
    ensures WithoutPins(list, m, i + 1) == Remove(WithoutPins(list, m, i), Pin(m, i))
  {
    if list != [] {
      assert Distinct(list[1..]) && list[0] !in list[1..];
      WithoutStep(list[1..], m, i);
      WithoutPinsHolds(list[1..], m, i);
      if list[0] == Pin(m, i) {
        RemoveHolds(WithoutPins(list[1..], m, i), Pin(m, i));
      }
    }
  }

  lemma {:induction false} WithoutAll(list: seq<Pin>, m: nat, i: nat)
    requires forall p <- list :: p.obj == m ==> p.pin < i
    ensures WithoutPins(list, m, i) == Without(list, m)
  {
    if list != [] {
      WithoutAll(list[1..], m, i);
    }
  }

  lemma {:induction false} WithoutZero(list: seq<Pin>, m: nat)
    ensures WithoutPins(list, m, 0) == list
  {
    if list != [] {
      WithoutZero(list[1..], m);
    }
  }

  /** The netlist after the first `i` pins of `m` were unlinked. */
  function LinksBelow(net: Net, m: nat, i: nat): Net {
    net.(
      lists := map n | n in net.lists :: WithoutPins(net.lists[n], m, i),
      nexus := map p | p in net.nexus && !(p.obj == m && p.pin < i) :: net.nexus[p])
  }

  lemma WithoutNone(net: Net, m: nat)
    ensures LinksBelow(net, m, 0) == net
  {
    forall n | n in net.lists ensures WithoutPins(net.lists[n], m, 0) == net.lists[n] {
      WithoutZero(net.lists[n], m);
    }
    assert LinksBelow(net, m, 0).lists == net.lists;
    assert LinksBelow(net, m, 0).nexus == net.nexus;
  }

  lemma LinksBelowStep(net: Net, m: nat, i: nat)
    requires WellLinked(net)
    ensures var net' := LinksBelow(net, m, i); var p := Pin(m, i);
      if p in net'.nexus then net'.nexus[p] in net'.lists && LinksBelow(net, m, i + 1) == Unlinked(net', p)
      else LinksBelow(net, m, i + 1) == net'
  {
    LinksStep(net, m, i);
    ListsStep(net, m, i);
  }

  lemma LinksStep(net: Net, m: nat, i: nat)
    ensures LinksBelow(net, m, i + 1).nexus == LinksBelow(net, m, i).nexus - {Pin(m, i)}
    ensures Pin(m, i) in LinksBelow(net, m, i).nexus <==> Pin(m, i) in net.nexus
  {
  }

  lemma ListsStep(net: Net, m: nat, i: nat)
    requires WellLinked(net)
    ensures var lists, p := LinksBelow(net, m, i).lists, Pin(m, i);
      LinksBelow(net, m, i + 1).lists ==
        if p in net.nexus then lists[net.nexus[p] := ListStep(net, m, i, net.nexus[p])] else lists
  {
    var l1, l2 := LinksBelow(net, m, i).lists, LinksBelow(net, m, i + 1).lists;
    assert l1.Keys == net.lists.Keys && l2.Keys == net.lists.Keys;
    forall n | n in net.lists ensures l2[n] == ListStep(net, m, i, n) {
      ListBelowStep(net, m, i, n);
    }
  }

  function ListStep(net: Net, m: nat, i: nat, n: nat): seq<Pin>
    requires n in net.lists
  {
    var list, p := WithoutPins(net.lists[n], m, i), Pin(m, i);
    if p in net.nexus && n == net.nexus[p] then Remove(list, p) else list
  }

  lemma ListBelowStep(net: Net, m: nat, i: nat, n: nat)
    requires WellLinked(net) && n in net.lists
    ensures WithoutPins(net.lists[n], m, i + 1) == ListStep(net, m, i, n)
  {
    WithoutStep(net.lists[n], m, i);
    WithoutPinsHolds(net.lists[n], m, i);
    RemoveHolds(WithoutPins(net.lists[n], m, i), Pin(m, i));
    if Pin(m, i) in WithoutPins(net.lists[n], m, i) {
      assert Pin(m, i) in net.lists[n];
    }
  }

  function Deleted(net: Net, m: nat): Net {
    Net(
      net.nodes - {m},
      map n | n in net.lists :: Without(net.lists[n], m),
      map p | p in net.nexus && p.obj != m :: net.nexus[p])
  }

  lemma LinksBelowAll(net: Net, m: nat)
    requires WellLinked(net) && m in net.nodes
    ensures LinksBelow(net, m, PinCount(net.nodes[m])).(nodes := net.nodes - {m}) == Deleted(net, m)
  {
    var i := PinCount(net.nodes[m]);
    forall n | n in net.lists ensures WithoutPins(net.lists[n], m, i) == Without(net.lists[n], m) {
      WithoutAll(net.lists[n], m, i);
    }
    assert LinksBelow(net, m, i).lists == Deleted(net, m).lists;
    forall p | p in net.nexus && p.obj == m ensures p.pin < i {
      assert p in net.lists[net.nexus[p]];
    }
    assert LinksBelow(net, m, i).nexus == Deleted(net, m).nexus;
  }

  lemma DeletedWell(net: Net, driven: map<nat, Guess>, m: nat)
    requires WellLinked(net) && m in net.nodes
    requires WellLinked(LinksBelow(net, m, PinCount(net.nodes[m])))
    requires Remembered(LinksBelow(net, m, PinCount(net.nodes[m])), driven)
    ensures WellLinked(Deleted(net, m)) && Remembered(Deleted(net, m), driven)
  {
    LinksBelowAll(net, m);
    var net' := LinksBelow(net, m, PinCount(net.nodes[m]));
    forall n | n in net'.lists
      ensures forall p <- net'.lists[n] :: p.obj in net.nodes - {m} && (net.nodes - {m})[p.obj] == net'.nodes[p.obj]
    {
      WithoutHolds(net.lists[n], m);
      WithoutPinsHolds(net.lists[n], m, PinCount(net.nodes[m]));
      assert net'.lists[n] == Deleted(net, m).lists[n];
    }
    NodesAgree(net', driven, net.nodes - {m});
  }

  predicate LinkedMuxes(net: Net) {
    forall m <- net.nodes :: BinaryMux(net.nodes[m]) ==> LinkedMux(net, m)
  }

  predicate Replaceable(net: Net, m: nat)
    requires WellLinked(net)
  {
    Selects(net, m, 0) || Selects(net, m, 1)
  }

  /** Which muxes are replaced, said of what is linked to their select: no assigned net,
      before every driver that can change a supply, and a supply or else, as the last
      constant or pull, a 0 or 1. That bit chooses the input. */
  lemma ReplaceableExact(net: Net, m: nat)
    requires WellLinked(net) && LinkedMux(net, m)
    ensures Pin(m, 1) in net.nexus && net.nexus[Pin(m, 1)] in net.lists
    ensures var list := net.lists[net.nexus[Pin(m, 1)]]; var given := Given(net.nodes, list);
            var supplied := SUPPLY0 in Kinds(net.nodes, list) || SUPPLY1 in Kinds(net.nodes, list);
            && (Replaceable(net, m) <==>
                  && (forall p <- list :: !(net.nodes[p.obj].NetNet? && net.nodes[p.obj].lref))
                  && (forall i: nat | i < |list| && Varies(net.nodes, list[i]) :: SupplyBefore(net.nodes, list, i))
                  && (supplied || Last(given, Vz) in {V0, V1}))
            && (Replaceable(net, m) && !supplied ==> Selects(net, m, if Last(given, Vz) == V1 then 1 else 0))
  {
    MuxLinks(net, m, 0);
    assert Pin(m, 1) in net.nexus;
    var list := net.lists[net.nexus[Pin(m, 1)]];
    ConstantExact(net.nodes, list);
    ScanTakes(net.nodes, list, Vz);
  }

  /** The links of the new buffer, before the mux goes. */
  function WithBuffer(net: Net, m: nat, k: nat, t: nat): Net
    requires LinkedMux(net, m) && k < 2 && Pin(m, 0) in net.nexus && Pin(m, 2 + k) in net.nexus
    requires net.nexus[Pin(m, 0)] in net.lists && net.nexus[Pin(m, 2 + k)] in net.lists
  {
    var net1 := net.(nodes := net.nodes[t := NetBUFZ]);
    Relinked(Relinked(net1, net.nexus[Pin(m, 0)], Pin(t, 0)), net.nexus[Pin(m, 2 + k)], Pin(t, 1))
  }

  lemma MuxLinks(net: Net, m: nat, k: nat)
    requires WellLinked(net) && LinkedMux(net, m) && k < 2
    ensures forall i: nat | i < 4 :: Pin(m, i) in net.nexus && net.nexus[Pin(m, i)] in net.lists
  {
  }

  /** The steps of the replacement amount to it. */
  lemma ReplacedInSteps(net: Net, m: nat, k: nat, t: nat)
    requires WellLinked(net) && LinkedMux(net, m) && k < 2 && Fresh(net, t)
    requires Pin(m, 0) in net.nexus && Pin(m, 2 + k) in net.nexus
    requires net.nexus[Pin(m, 0)] in net.lists && net.nexus[Pin(m, 2 + k)] in net.lists
    ensures Deleted(WithBuffer(net, m, k, t), m) == Replaced(net, m, k, t)
  {
    ReplacedLists(net, m, k, t);
    ReplacedNexus(net, m, k, t);
    assert Deleted(WithBuffer(net, m, k, t), m).nodes == Replaced(net, m, k, t).nodes;
  }

  lemma ReplacedLists(net: Net, m: nat, k: nat, t: nat)
    requires WellLinked(net) && LinkedMux(net, m) && k < 2 && Fresh(net, t)
    requires Pin(m, 0) in net.nexus && Pin(m, 2 + k) in net.nexus
    requires net.nexus[Pin(m, 0)] in net.lists && net.nexus[Pin(m, 2 + k)] in net.lists
    ensures Deleted(WithBuffer(net, m, k, t), m).lists == Replaced(net, m, k, t).lists
  {
    forall n | n in net.lists
      ensures n in Deleted(WithBuffer(net, m, k, t), m).lists
      ensures Deleted(WithBuffer(net, m, k, t), m).lists[n] == Replaced(net, m, k, t).lists[n]
    {
      ReplacedList(net, m, k, t, n);
    }
    BufferKeys(net, m, k, t);
    DeletedKeys(WithBuffer(net, m, k, t), m);
    SameLists(net.lists.Keys, Deleted(WithBuffer(net, m, k, t), m).lists, Replaced(net, m, k, t).lists);
  }

  lemma BufferKeys(net: Net, m: nat, k: nat, t: nat)
    requires LinkedMux(net, m) && k < 2 && Pin(m, 0) in net.nexus && Pin(m, 2 + k) in net.nexus
    requires net.nexus[Pin(m, 0)] in net.lists && net.nexus[Pin(m, 2 + k)] in net.lists
    ensures WithBuffer(net, m, k, t).lists.Keys == net.lists.Keys
  {
  }

  lemma DeletedKeys(net: Net, m: nat)
    ensures Deleted(net, m).lists.Keys == net.lists.Keys
  {
  }

  lemma SameLists(keys: set<nat>, a: map<nat, seq<Pin>>, b: map<nat, seq<Pin>>)
    requires a.Keys == keys && b.Keys == keys && forall n <- keys :: a[n] == b[n]
    ensures a == b
  {
  }

  lemma ReplacedList(net: Net, m: nat, k: nat, t: nat, n: nat)
    requires LinkedMux(net, m) && k < 2 && Fresh(net, t) && n in net.lists
    requires Pin(m, 0) in net.nexus && Pin(m, 2 + k) in net.nexus
    requires net.nexus[Pin(m, 0)] in net.lists && net.nexus[Pin(m, 2 + k)] in net.lists
    ensures n in Deleted(WithBuffer(net, m, k, t), m).lists
    ensures Deleted(WithBuffer(net, m, k, t), m).lists[n] == Replaced(net, m, k, t).lists[n]
  {
    assert WithBuffer(net, m, k, t).lists[n] == Added(net, m, k, t, n) + net.lists[n];
    WithoutFront(Added(net, m, k, t, n), net.lists[n], m);
  }

  lemma ReplacedNexus(net: Net, m: nat, k: nat, t: nat)
    requires LinkedMux(net, m) && k < 2 && Fresh(net, t)
    requires Pin(m, 0) in net.nexus && Pin(m, 2 + k) in net.nexus
    requires net.nexus[Pin(m, 0)] in net.lists && net.nexus[Pin(m, 2 + k)] in net.lists
    ensures Deleted(WithBuffer(net, m, k, t), m).nexus == Replaced(net, m, k, t).nexus
  {
  }

  lemma {:induction false} WithoutFront(a: seq<Pin>, list: seq<Pin>, m: nat)
    requires forall p <- a :: p.obj != m
    ensures Without(a + list, m) == a + Without(list, m)
  {
    if a == [] {
      assert a + list == list;
    } else {
      assert (a + list)[1..] == a[1..] + list;
      WithoutFront(a[1..], list, m);
    }
  }

  lemma ReplacedLinked(net: Net, m: nat, k: nat, t: nat)
    requires LinkedMuxes(net) && LinkedMux(net, m) && k < 2 && Fresh(net, t)
    ensures LinkedMuxes(Replaced(net, m, k, t))
  {
    var net' := Replaced(net, m, k, t);
    forall x | x in net'.nodes && BinaryMux(net'.nodes[x]) ensures LinkedMux(net', x) {
      assert x in net.nodes && LinkedMux(net, x);
      forall i: nat | i < 4 ensures Pin(x, i) in net'.nexus {
        assert Pin(x, i) in net.nexus;
      }
    }
  }

  // Progress and meaning.

  predicate ReplacedBy(net: Net, net': Net, m: nat, k: nat, t: nat) {
    WellLinked(net) && Selects(net, m, k) && t !in net.nodes && net' == Replaced(net, m, k, t)
  }

  function Muxes(nodes: Nodes): set<nat> {
    set m | m in nodes && nodes[m].NetMux?
  }

  /** The mux cannot be replaced, or it is none. */
  predicate Tried(net: Net, m: nat)
    requires WellLinked(net)
  {
    m in net.nodes && net.nodes[m].NetMux? ==> !Replaceable(net, m)
  }

  /** No mux is left to replace. */
  predicate Settled(net: Net)
    requires WellLinked(net)
  {
    forall m <- net.nodes :: Tried(net, m)
  }

  predicate PlainSelects(net: Net)
    requires WellLinked(net)
  {
    forall m <- net.nodes :: LinkedMux(net, m) ==> PlainSelect(net, m)
  }

  /** One replacement takes one mux away, keeps selects plain and preserves meaning. */
  lemma StepProgress(net: Net, before: Net, m: nat, k: nat, t: nat)
    requires WellLinked(net) && WellLinked(before) && Selects(before, m, k) && t !in before.nodes
    ensures var after := Replaced(before, m, k, t);
      && WellLinked(after)
      && |Muxes(after.nodes)| == |Muxes(before.nodes)| - 1
      && (PlainSelects(before) ==> PlainSelects(after))
      && (PlainSelects(before) && Equivalent(net, before) ==> Equivalent(net, after))
  {
    ReplacedWellLinked(before, m, k, t);
    OneMuxLess(before, m, k, t);
    if PlainSelects(before) {
      ReplacedPlain(before, m, k, t);
      StepEquivalent(net, before, m, k, t);
    }
  }

  /** How far a pass over the nodes has come: replacements are counted, and without any
      the nodes behind it have been tried on the netlist as it was. */
  ghost predicate Swept(net: Net, now: Net, rest: set<nat>, count: nat) {
    && WellLinked(net) && WellLinked(now) && rest <= now.nodes.Keys
    && (count == 0 ==> now == net && forall m <- net.nodes.Keys - rest :: Tried(net, m))
    && |Muxes(now.nodes)| + count <= |Muxes(net.nodes)|
    && (PlainSelects(net) ==> PlainSelects(now) && Equivalent(net, now))
  }

  lemma SweptPast(net: Net, now: Net, rest: set<nat>, count: nat, m: nat)
    requires Swept(net, now, rest, count) && m in rest && m in now.nodes
    requires now.nodes[m].NetMux? ==> !Replaceable(now, m)
    ensures Swept(net, now, rest - {m}, count)
  {
  }

  lemma SweptReplaced(net: Net, before: Net, now: Net, rest: set<nat>, count: nat, m: nat)
    requires Swept(net, before, rest, count) && m in rest
    requires exists k: nat, t: nat :: ReplacedBy(before, now, m, k, t)
    ensures Swept(net, now, rest - {m}, count + 1)
  {
    var k: nat, t: nat :| ReplacedBy(before, now, m, k, t);
    StepProgress(net, before, m, k, t);
  }

  lemma OneMuxLess(net: Net, m: nat, k: nat, t: nat)
    requires LinkedMux(net, m) && k < 2 && t !in net.nodes
    ensures |Muxes(Replaced(net, m, k, t).nodes)| == |Muxes(net.nodes)| - 1
  {
    assert Muxes(Replaced(net, m, k, t).nodes) == Muxes(net.nodes) - {m};
  }

  lemma StepEquivalent(net: Net, before: Net, m: nat, k: nat, t: nat)
    requires WellLinked(net) && WellLinked(before) && Selects(before, m, k) && t !in before.nodes
    requires PlainSelects(before) && WellLinked(Replaced(before, m, k, t))
    ensures Equivalent(net, before) ==> Equivalent(net, Replaced(before, m, k, t))
  {
    assert LinkedMux(before, m) && m in before.nodes;
    ReplacedEquivalent(before, m, k, t);
    if Equivalent(net, before) {
      EquivalentTransitive(net, before, Replaced(before, m, k, t));
    }
  }

  lemma EquivalentTransitive(a: Net, b: Net, c: Net)
    requires WellLinked(a) && WellLinked(b) && WellLinked(c)
    requires Equivalent(a, b) && Equivalent(b, c)
    ensures Equivalent(a, c)
  {
    forall M: Meaning, v: Valuation | Sound(M)
      ensures Satisfies(c, M, v) <==> Satisfies(a, M, v)
    {
      assert Satisfies(b, M, v) <==> Satisfies(a, M, v);
      assert Satisfies(c, M, v) <==> Satisfies(b, M, v);
    }
  }

  lemma ReplacedPlain(net: Net, m: nat, k: nat, t: nat)
    requires WellLinked(net) && LinkedMux(net, m) && k < 2 && t !in net.nodes && PlainSelects(net)
    ensures WellLinked(Replaced(net, m, k, t)) && PlainSelects(Replaced(net, m, k, t))
  {
    var net' := Replaced(net, m, k, t);
    ReplacedWellLinked(net, m, k, t);
    forall x | x in net'.nodes && LinkedMux(net', x) ensures PlainSelect(net', x) {
      MuxStays(net, m, k, t, x);
      assert PlainSelect(net, x);
      ReplacedValues(net, m, k, t, net.nexus[Pin(x, 1)]);
    }
  }

  /** The muxes left were there before, with the same links. */
  lemma MuxStays(net: Net, m: nat, k: nat, t: nat, x: nat)
    requires WellLinked(net) && LinkedMux(net, m) && k < 2 && t !in net.nodes
    requires var net' := Replaced(net, m, k, t); x in net'.nodes && LinkedMux(net', x)
    ensures var net' := Replaced(net, m, k, t);
            && x != m && x != t && x in net.nodes && net.nodes[x] == net'.nodes[x] && LinkedMux(net, x)
            && Pin(x, 1) in net.nexus && Pin(x, 1) in net'.nexus && net.nexus[Pin(x, 1)] == net'.nexus[Pin(x, 1)]
  {
    var net' := Replaced(net, m, k, t);
    forall i: nat | i < 4 ensures Pin(x, i) in net.nexus && net.nexus[Pin(x, i)] == net'.nexus[Pin(x, i)] {
      assert Pin(x, i) in net'.nexus;
    }
  }

  class Design {
    var nodes: Nodes
    var lists: map<nat, seq<Pin>>
    var nexus: map<Pin, nat>
    var driven: map<nat, Guess>
    var nextId: nat

    ghost function TheNet(): Net
      reads this
    {
      Net(nodes, lists, nexus)
    }

    ghost predicate Valid()
      reads this
    {
      WellLinked(TheNet()) && Remembered(TheNet(), driven) && forall id <- nodes :: id < nextId
    }

    // Nexus::drivers_constant, driven_value, assign_lval.

    method DriversConstant(n: nat) returns (flag: bool)
      requires Valid() && n in lists
      modifies this`driven
      ensures Valid() && flag == Constant(nodes, lists[n])
    {
      if driven[n] == VAR {
        return false;
      }
      if driven[n] != NO_GUESS {
        return true;
      }
      var list := lists[n];
      assert list[0..] == list;
      for cur := 0 to |list|
        invariant ScanDrivers(nodes, list) == ScanDrivers(nodes, list[cur..])
        invariant driven == old(driven)
      {
        assert list[cur..][1..] == list[cur + 1..];
        SupplyDecides(nodes, list, Vz);
        var node := nodes[list[cur].obj];
        var dir := DirOf(node, list[cur].pin);
        if dir == INPUT {
          continue;
        }
        if dir == PASSIVE {
          if !node.NetNet? || !node.root {
            continue;
          }
          if node.port == NOT_A_PORT || node.port == POUTPUT {
            continue;
          }
          driven := driven[n := VAR];
          return false;
        }
        if node.NetNet? && node.kind == SUPPLY0 {
          driven := driven[n := Value(V0)];
          return true;
        }
        if node.NetNet? && node.kind == SUPPLY1 {
          driven := driven[n := Value(V1)];
          return true;
        }
        if !node.NetConst? {
          driven := driven[n := VAR];
          return false;
        }
      }
      return true;
    }

    /** The value of a fresh scan, unless the nexus is remembered not to be constant. What
        is remembered is true exactly if the nexus is constant. */
    method DrivenValue(n: nat) returns (val: V)
      requires Valid() && n in lists && driven[n] != VAR
      modifies this`driven
      ensures val == ScanValue(nodes, lists[n], Vz) && driven == old(driven)[n := Value(val)]
      ensures Valid() <==> Constant(nodes, lists[n])
    {
      if driven[n].Value? {
        return driven[n].v;
      }
      var list := lists[n];
      assert list[0..] == list;
      val := Vz;
      for cur := 0 to |list|
        invariant ScanValue(nodes, list, Vz) == ScanValue(nodes, list[cur..], val)
        invariant driven == old(driven)
      {
        assert list[cur..][1..] == list[cur + 1..];
        var node := nodes[list[cur].obj];
        if node.NetConst? {
          val := node.value[0];
        } else if node.NetNet? {
          if node.kind == SUPPLY0 {
            driven := driven[n := Value(V0)];
            return V0;
          }
          if node.kind == SUPPLY1 {
            driven := driven[n := Value(V1)];
            return V1;
          }
          if node.kind == TRI0 {
            val := V0;
          }
          if node.kind == TRI1 {
            val := V1;
          }
        }
      }
      driven := driven[n := Value(val)];
    }

    method HasAssignLval(n: nat) returns (flag: bool)
      requires Valid() && n in lists
      ensures flag == AssignLval(nodes, lists[n])
    {
      var list := lists[n];
      for cur := 0 to |list|
        invariant forall p <- list[..cur] :: !(nodes[p.obj].NetNet? && nodes[p.obj].lref)
      {
        assert list[..cur + 1] == list[..cur] + [list[cur]];
        if nodes[list[cur].obj].NetNet? && nodes[list[cur].obj].lref {
          return true;
        }
      }
      assert list[..|list|] == list;
      return false;
    }

    // Nexus::relink, unlink.

    method Relink(n: nat, p: Pin)
      requires Valid() && n in lists && p !in nexus
      requires p.obj in nodes && p.pin < PinCount(nodes[p.obj]) && Known(nodes, [p])
      modifies this
      ensures Valid() && TheNet() == Relinked(old(TheNet()), n, p) && nextId == old(nextId)
    {
      RelinkedWell(TheNet(), n, p);
      RelinkedRemembered(TheNet(), driven, n, p);
      if DirOf(nodes[p.obj], p.pin) != INPUT {
        driven := driven[n := NO_GUESS];
      }
      lists, nexus := lists[n := [p] + lists[n]], nexus[p := n];
    }

    method Unlink(p: Pin)
      requires Valid() && p in nexus
      modifies this
      ensures Valid() && TheNet() == Unlinked(old(TheNet()), p) && nextId == old(nextId)
    {
      var n := nexus[p];
      assert p in lists[n];
      UnlinkedWell(TheNet(), p);
      UnlinkedRemembered(TheNet(), driven, p);
      if DirOf(nodes[p.obj], p.pin) != INPUT {
        driven := driven[n := NO_GUESS];
      }
      lists, nexus := lists[n := Remove(lists[n], p)], nexus - {p};
    }

    // Nodes.

    method NewBUFZ() returns (t: nat)
      requires Valid()
      modifies this
      ensures Valid() && t == old(nextId) && t !in old(nodes) && nextId == t + 1
      ensures TheNet() == old(TheNet()).(nodes := old(nodes)[t := NetBUFZ])
    {
      t := nextId;
      NodesAgree(TheNet(), driven, nodes[t := NetBUFZ]);
      nodes, nextId := nodes[t := NetBUFZ], nextId + 1;
    }

    method DeleteNode(m: nat)
      requires Valid() && m in nodes
      modifies this
      ensures Valid() && TheNet() == Deleted(old(TheNet()), m) && nextId == old(nextId)
    {
      ghost var net := TheNet();
      var pins := PinCount(nodes[m]);
      WithoutNone(net, m);
      for i := 0 to pins
        invariant Valid() && nodes == old(nodes) && nextId == old(nextId)
        invariant TheNet() == LinksBelow(net, m, i)
      {
        LinksBelowStep(net, m, i);
        if Pin(m, i) in nexus {
          Unlink(Pin(m, i));
        }
      }
      LinksBelowAll(net, m);
      DeletedWell(net, driven, m);
      nodes := nodes - {m};
    }

    /** The value of a mux's select, when it is constant and not assigned. */
    method SelectValue(m: nat) returns (selVal: V)
      requires Valid() && LinkedMux(TheNet(), m)
      modifies this`driven
      ensures Valid()
      ensures selVal == V1 <==> Selects(TheNet(), m, 1)
      ensures selVal == V0 <==> Selects(TheNet(), m, 0)
    {
      MuxLinks(TheNet(), m, 0);
      assert Pin(m, 1) in nexus;
      var sel := nexus[Pin(m, 1)];
      var flag := DriversConstant(sel);
      var lval := HasAssignLval(sel);
      flag := flag && !lval;
      selVal := Vx;
      if flag {
        selVal := DrivenValue(sel);
      }
    }

    /** A buffer takes the place of the mux. */
    method ReplaceMux(m: nat, k: nat) returns (t: nat)
      requires Valid() && LinkedMux(TheNet(), m) && k < 2
      modifies this
      ensures Valid() && t !in old(nodes) && TheNet() == Replaced(old(TheNet()), m, k, t)
    {
      ghost var net := TheNet();
      MuxLinks(net, m, k);
      assert Pin(m, 0) in nexus && Pin(m, 2 + k) in nexus;
      var result, data := nexus[Pin(m, 0)], nexus[Pin(m, 2 + k)];
      t := NewBUFZ();
      FreshUnlinked(net, t);
      Relink(result, Pin(t, 0));
      Relink(data, Pin(t, 1));
      DeleteNode(m);
      ReplacedInSteps(net, m, k, t);
    }

    /** Replaces the mux when its select is known, and counts that. */
    method LpmMux(m: nat) returns (count: nat)
      requires Valid() && LinkedMuxes(TheNet()) && m in nodes && nodes[m].NetMux?
      modifies this
      ensures Valid() && LinkedMuxes(TheNet())
      ensures count == 0 ==> TheNet() == old(TheNet()) && !Replaceable(TheNet(), m)
      ensures count > 0 ==> exists k: nat, t: nat :: ReplacedBy(old(TheNet()), TheNet(), m, k, t)
    {
      if nodes[m].size != 2 || nodes[m].selWidth != 1 {
        return 0;
      }
      var selVal := SelectValue(m);
      if selVal == Vz || selVal == Vx {
        return 0;
      }
      ghost var net := TheNet();
      var k := if selVal == V1 then 1 else 0;
      var t := ReplaceMux(m, k);
      ReplacedLinked(net, m, k, t);
      assert ReplacedBy(net, TheNet(), m, k, t);
      return 1;
    }

    /** One application of the functor to every node, in any order. */
    method Functor() returns (count: nat)
      requires Valid() && LinkedMuxes(TheNet())
      modifies this
      ensures Valid() && LinkedMuxes(TheNet())
      ensures count == 0 ==> TheNet() == old(TheNet()) && Settled(TheNet())
      ensures count > 0 ==> |Muxes(nodes)| < |Muxes(old(nodes))|
      ensures PlainSelects(old(TheNet())) ==> PlainSelects(TheNet()) && Equivalent(old(TheNet()), TheNet())
    {
      ghost var net := TheNet();
      count := 0;
      var rest := nodes.Keys;
      while rest != {}
        invariant Valid() && LinkedMuxes(TheNet()) && Swept(net, TheNet(), rest, count)
        decreases |rest|
      {
        var m :| m in rest;
        ghost var before := TheNet();
        var done := 0;
        if nodes[m].NetMux? {
          done := LpmMux(m);
        }
        if done > 0 {
          SweptReplaced(net, before, TheNet(), rest, count, m);
          count := count + 1;
        } else {
          SweptPast(net, before, rest, count, m);
        }
        rest := rest - {m};
      }
    }

    /** Functors are applied until one finds nothing to do. */
    method Cprop()
      requires Valid() && LinkedMuxes(TheNet())
      modifies this
      ensures Valid() && LinkedMuxes(TheNet())
      ensures Settled(TheNet())
      ensures PlainSelects(old(TheNet())) ==> Equivalent(old(TheNet()), TheNet())
    {
      ghost var net := TheNet();
      var count := 1;
      while count > 0
        invariant Valid() && LinkedMuxes(TheNet())
        invariant count == 0 ==> Settled(TheNet())
        invariant PlainSelects(net) ==> PlainSelects(TheNet()) && Equivalent(net, TheNet())
        decreases |Muxes(nodes)|, count
      {
        ghost var before := TheNet();
        count := Functor();
      }
    }
  }
}
