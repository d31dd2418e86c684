/** How vectors are cut for l-value concatenations (elab_net.cc) and for the sub-ports of
    module instances (elaborate.cc), and put together again. */
module Slicing {
  import opened Verinum
  import opened PExprs
  import opened Scopes

  datatype Slice = Slice(off: nat, wid: nat)

  function Sum(widths: seq<nat>): nat {
    if widths == [] then 0 else widths[0] + Sum(widths[1..])
  }

  /** Operands are listed from the most significant: each lies above all that follow. */
  function Slices(widths: seq<nat>): (r: seq<Slice>)
    ensures |r| == |widths|
  {
    if widths == [] then [] else [Slice(Sum(widths[1..]), widths[0])] + Slices(widths[1..])
  }

  /** An operand that is no net, or a repeat count, is an error. */
  method ElaborateLnetConcat(nets: seq<Option<nat>>, repeat: bool) returns (r: Option<seq<Slice>>, errors: nat)
    requires nets != []
    ensures r.None? <==> repeat || None in nets
    ensures errors == if repeat then 0 else Missing(nets)
    ensures r.Some? ==> r.value == Slices(Widths(nets))
  {
    if repeat {
      return None, 0;
    }
    var width;
    width, errors := OperandWidths(nets);
    MissingNone(nets);
    if errors > 0 {
      return None, errors;
    }
    var slices := CutOperands(nets, width);
    return Some(slices), errors;
  }

  method OperandWidths(nets: seq<Option<nat>>) returns (width: nat, errors: nat)
    ensures errors == Missing(nets) && width == Sum(Widths(nets))
  {
    width, errors := 0, 0;
    assert nets[0..] == nets;
    for idx := 0 to |nets|
      invariant errors + Missing(nets[idx..]) == Missing(nets)
      invariant width + Sum(Widths(nets[idx..])) == Sum(Widths(nets))
    {
      assert nets[idx..][1..] == nets[idx + 1..];
      if nets[idx].None? {
        errors := errors + 1;
      } else {
        width := width + nets[idx].value;
      }
    }
  }

  /** The loop that counts the width down. */
  method CutOperands(nets: seq<Option<nat>>, total: nat) returns (slices: seq<Slice>)
    requires None !in nets && total == Sum(Widths(nets))
    ensures slices == Slices(Widths(nets))
  {
    slices := [];
    var width := total;
    assert nets[0..] == nets;
    for idx := 0 to |nets|
      invariant width == Sum(Widths(nets[idx..]))
      invariant slices + Slices(Widths(nets[idx..])) == Slices(Widths(nets))
    {
      assert nets[idx..][1..] == nets[idx + 1..];
      assert nets[idx] in nets;
      var wid := nets[idx].value;
      var off := width - wid;
      slices := slices + [Slice(off, wid)];
      width := width - wid;
    }
  }

  function Widths(nets: seq<Option<nat>>): seq<nat> {
    if nets == [] then [] else [if nets[0].Some? then nets[0].value else 0] + Widths(nets[1..])
  }

  function Missing(nets: seq<Option<nat>>): nat {
    if nets == [] then 0 else (if nets[0].None? then 1 else 0) + Missing(nets[1..])
  }

  lemma {:induction false} MissingNone(nets: seq<Option<nat>>)
    ensures Missing(nets) == 0 <==> None !in nets
  {
    if nets != [] {
      MissingNone(nets[1..]);
      assert nets == [nets[0]] + nets[1..];
    }
  }

  // Tiling.

  predicate Covers(s: Slice, b: nat) {
    s.off <= b < s.off + s.wid
  }

  predicate Covered(slices: seq<Slice>, b: nat) {
    exists i :: 0 <= i < |slices| && Covers(slices[i], b)
  }

  /** The slices have the widths asked for, and each lies wholly below those before it. */
  lemma {:induction false} SlicesApart(widths: seq<nat>)
    ensures forall i, j | 0 <= i < j < |widths| ::
      Slices(widths)[j].off + Slices(widths)[j].wid <= Slices(widths)[i].off
    ensures forall i | 0 <= i < |widths| :: Slices(widths)[i].wid == widths[i]
  {
    if widths != [] {
      var rest, s := widths[1..], Slices(widths);
      SlicesApart(rest);
      forall i | 0 < i < |widths| ensures s[i] == Slices(rest)[i - 1] && s[i].off + s[i].wid <= s[0].off {
        BelowSum(rest, i - 1);
      }
    }
  }

  /** Together they hold each bit of the vector, and nothing beyond it. */
  lemma {:induction false} SlicesTile(widths: seq<nat>, b: nat)
    ensures b < Sum(widths) <==> Covered(Slices(widths), b)
  {
    if widths != [] {
      var rest, s := widths[1..], Slices(widths);
      SlicesTile(rest, b);
      if b < Sum(rest) {
        var i :| 0 <= i < |rest| && Covers(Slices(rest)[i], b);
        assert Covers(s[i + 1], b);
      } else if b < Sum(widths) {
        assert Covers(s[0], b);
      } else if Covered(s, b) {
        var i :| 0 <= i < |s| && Covers(s[i], b);
        BelowSum(widths, i);
      }
    }
  }

  lemma {:induction false} BelowSum(widths: seq<nat>, i: nat)
    requires i < |widths|
    ensures Slices(widths)[i].off + Slices(widths)[i].wid <= Sum(widths)
  {
    if i > 0 {
      BelowSum(widths[1..], i - 1);
    }
  }

  // Cutting and joining.

  /** Parts put together with the first as the most significant; bits are stored from
      the least significant on. */
  function Join(parts: seq<Bits>): Bits {
    if parts == [] then [] else Join(parts[1..]) + parts[0]
  }

  predicate Inside(slices: seq<Slice>, n: nat) {
    forall s <- slices :: s.off + s.wid <= n
  }

  function Cut(v: Bits, slices: seq<Slice>): seq<Bits>
    requires Inside(slices, |v|)
  {
    if slices == [] then []
    else assert slices[0] in slices; [v[slices[0].off..slices[0].off + slices[0].wid]] + Cut(v, slices[1..])
  }

  lemma {:induction false} SlicesInside(widths: seq<nat>)
    ensures Inside(Slices(widths), Sum(widths))
  {
    if widths != [] {
      SlicesInside(widths[1..]);
    }
  }

  /** Slices of a prefix are slices of the whole. */
  lemma {:induction false} CutPrefix(v: Bits, n: nat, slices: seq<Slice>)
    requires n <= |v| && Inside(slices, n)
    ensures Cut(v, slices) == Cut(v[..n], slices)
  {
    if slices != [] {
      var s := slices[0];
      assert s in slices;
      assert v[s.off..s.off + s.wid] == v[..n][s.off..s.off + s.wid];
      CutPrefix(v, n, slices[1..]);
    }
  }

  /** Cutting a vector and joining the parts gives it back. */
  lemma {:induction false} JoinCut(v: Bits, widths: seq<nat>)
    requires |v| == Sum(widths)
    ensures Inside(Slices(widths), |v|)
    ensures Join(Cut(v, Slices(widths))) == v
    decreases widths
  {
    SlicesInside(widths);
    if widths != [] {
      var rest := widths[1..];
      SlicesInside(rest);
      CutPrefix(v, Sum(rest), Slices(rest));
      JoinCut(v[..Sum(rest)], rest);
      assert v == v[..Sum(rest)] + v[Sum(rest)..];
    }
  }

  function Lengths(parts: seq<Bits>): seq<nat> {
    if parts == [] then [] else [|parts[0]|] + Lengths(parts[1..])
  }

  lemma {:induction false} JoinLength(parts: seq<Bits>)
    ensures |Join(parts)| == Sum(Lengths(parts)) && |Lengths(parts)| == |parts|
  {
    if parts != [] {
      JoinLength(parts[1..]);
    }
  }

  /** Joining parts and cutting the vector gives them back. */
  lemma {:induction false} CutJoin(parts: seq<Bits>)
    ensures Inside(Slices(Lengths(parts)), |Join(parts)|)
    ensures Cut(Join(parts), Slices(Lengths(parts))) == parts
  {
    JoinLength(parts);
    SlicesInside(Lengths(parts));
    if parts != [] {
      var rest := parts[1..];
      CutJoin(rest);
      JoinLength(rest);
      SlicesInside(Lengths(rest));
      assert Lengths(parts)[1..] == Lengths(rest);
      var n := |Join(rest)|;
      assert Join(parts)[..n] == Join(rest) && Join(parts)[n..n + |parts[0]|] == parts[0];
      assert Slices(Lengths(parts)) == [Slice(n, |parts[0]|)] + Slices(Lengths(rest));
      CutPrefix(Join(parts), n, Slices(Lengths(rest)));
    }
  }

  // Ports of module instances.

  /** A sub-port of an instance; instance 0 is the one at the low end of the array. */
  datatype SubPort = SubPort(inst: nat, sub: nat, wid: nat)

  /** The sub-ports from instance `n - 1` down to 0, each in the order of the port. */
  function SubPorts(mport: seq<nat>, n: nat): seq<SubPort> {
    if n == 0 then [] else InstancePorts(mport, n - 1, 0) + SubPorts(mport, n - 1)
  }

  function InstancePorts(mport: seq<nat>, inst: nat, ldx: nat): seq<SubPort>
    requires ldx <= |mport|
    decreases |mport| - ldx
  {
    if ldx == |mport| then [] else [SubPort(inst, ldx, mport[ldx])] + InstancePorts(mport, inst, ldx + 1)
  }

  function PortWidths(prts: seq<SubPort>): seq<nat> {
    if prts == [] then [] else [prts[0].wid] + PortWidths(prts[1..])
  }

  method CollectSubPorts(mport: seq<nat>, n: nat) returns (prts: seq<SubPort>, prtsVectorWidth: nat)
    ensures prts == SubPorts(mport, n) && prtsVectorWidth == Sum(PortWidths(prts))
  {
    prts, prtsVectorWidth := [], 0;
    for inst := 0 to n
      invariant prts + SubPorts(mport, n - inst) == SubPorts(mport, n)
      invariant prtsVectorWidth == Sum(PortWidths(prts))
    {
      var scope := n - inst - 1;
      ghost var before := prts;
      var ports, width := CollectInstance(mport, scope);
      prts, prtsVectorWidth := prts + ports, prtsVectorWidth + width;
      PortWidthsAppend(before, ports);
      SumAppend(PortWidths(before), PortWidths(ports));
      assert before + (ports + SubPorts(mport, scope)) == (before + ports) + SubPorts(mport, scope);
    }
  }

  method CollectInstance(mport: seq<nat>, scope: nat) returns (prts: seq<SubPort>, width: nat)
    ensures prts == InstancePorts(mport, scope, 0) && width == Sum(PortWidths(prts))
  {
    prts, width := [], 0;
    for ldx := 0 to |mport|
      invariant prts + InstancePorts(mport, scope, ldx) == InstancePorts(mport, scope, 0)
      invariant width == Sum(PortWidths(prts))
    {
      var port := SubPort(scope, ldx, mport[ldx]);
      PortWidthsAppend(prts, [port]);
      SumAppend(PortWidths(prts), PortWidths([port]));
      assert [port][1..] == [] && PortWidths([port]) == [port.wid] && [port.wid][1..] == [];
      prts, width := prts + [port], width + port.wid;
    }
  }

  lemma {:induction false} PortWidthsAppend(a: seq<SubPort>, b: seq<SubPort>)
    ensures PortWidths(a + b) == PortWidths(a) + PortWidths(b)
  {
    if a == [] {
      assert a + b == b;
    } else {
      assert (a + b)[1..] == a[1..] + b;
      PortWidthsAppend(a[1..], b);
    }
  }

  lemma {:induction false} SumAppend(a: seq<nat>, b: seq<nat>)
    ensures Sum(a + b) == Sum(a) + Sum(b)
  {
    if a == [] {
      assert a + b == b;
    } else {
      assert (a + b)[1..] == a[1..] + b;
      SumAppend(a[1..], b);
    }
  }

  lemma {:induction false} PortWidthsLength(prts: seq<SubPort>)
    ensures |PortWidths(prts)| == |prts| && forall i | 0 <= i < |prts| :: PortWidths(prts)[i] == prts[i].wid
  {
    if prts != [] {
      PortWidthsLength(prts[1..]);
    }
  }

  /** Input and inout ports: from the last sub-port up, each takes the next bits. */
  method SlicePorts(prts: seq<SubPort>) returns (slices: seq<Slice>)
    ensures slices == Slices(PortWidths(prts))
  {
    slices := [];
    var spin := 0;
    for ldx := 0 to |prts|
      invariant slices == Slices(PortWidths(prts[|prts| - ldx..]))
      invariant spin == Sum(PortWidths(prts[|prts| - ldx..]))
    {
      var sp := prts[|prts| - ldx - 1];
      assert prts[|prts| - (ldx + 1)..][1..] == prts[|prts| - ldx..];
      slices := [Slice(spin, sp.wid)] + slices;
      spin := spin + sp.wid;
    }
    assert prts[0..] == prts;
  }

  /** Output ports: the inputs of the concatenation, from its pin 1 on. */
  method ConcatPorts<T>(prts: seq<T>) returns (pins: seq<T>)
    ensures pins == Reversed(prts)
  {
    pins := [];
    for ldx := 0 to |prts|
      invariant pins == Reversed(prts[|prts| - ldx..])
    {
      assert prts[|prts| - (ldx + 1)..][1..] == prts[|prts| - ldx..];
      pins := pins + [prts[|prts| - ldx - 1]];
    }
    assert prts[0..] == prts;
  }

  function Reversed<T>(s: seq<T>): seq<T> {
    if s == [] then [] else Reversed(s[1..]) + [s[0]]
  }

  /** The output of a concatenation node: its first input is the least significant. */
  function ConcatOutput(pins: seq<Bits>): Bits {
    if pins == [] then [] else pins[0] + ConcatOutput(pins[1..])
  }

  lemma {:induction false} ConcatAppend(a: seq<Bits>, b: seq<Bits>)
    ensures ConcatOutput(a + b) == ConcatOutput(a) + ConcatOutput(b)
  {
    if a == [] {
      assert a + b == b;
    } else {
      assert (a + b)[1..] == a[1..] + b;
      ConcatAppend(a[1..], b);
    }
  }

  lemma {:induction false} ReversedJoins(parts: seq<Bits>)
    ensures ConcatOutput(Reversed(parts)) == Join(parts)
  {
    if parts != [] {
      ReversedJoins(parts[1..]);
      ConcatAppend(Reversed(parts[1..]), [parts[0]]);
      assert [parts[0]][1..] == [];
    }
  }

  /** Inputs and outputs give each sub-port the same bits: what an output concatenation
      collects from the sub-ports is cut by the input slices into the same values, and
      values taken by input slices are put back in place. */
  lemma PortsRoundTrip(prts: seq<SubPort>, values: seq<Bits>, v: Bits)
    requires Lengths(values) == PortWidths(prts)
    requires |v| == Sum(PortWidths(prts))
    ensures Inside(Slices(PortWidths(prts)), |ConcatOutput(Reversed(values))|) && Inside(Slices(PortWidths(prts)), |v|)
    ensures Cut(ConcatOutput(Reversed(values)), Slices(PortWidths(prts))) == values
    ensures ConcatOutput(Reversed(Cut(v, Slices(PortWidths(prts))))) == v
  {
    ReversedJoins(values);
    CutJoin(values);
    JoinCut(v, PortWidths(prts));
    ReversedJoins(Cut(v, Slices(PortWidths(prts))));
  }

  /** Instance `i` of an array has the i-th stretch of the vector from the low end, with
      its sub-ports from the most significant down. */
  lemma {:induction false} InstanceBits(mport: seq<nat>, n: nat, k: nat)
    requires k < |SubPorts(mport, n)|
    ensures var p := SubPorts(mport, n)[k];
      && p.inst < n && p.sub < |mport| && p.wid == mport[p.sub]
      && k < |Slices(PortWidths(SubPorts(mport, n)))|
      && Slices(PortWidths(SubPorts(mport, n)))[k]
         == Slice(Times(p.inst, Sum(mport)) + Sum(mport[p.sub + 1..]), p.wid)
    decreases n
  {
    FrontInstance(mport, n);
    if k < |mport| {
      FrontBits(mport, n, k);
    } else {
      InstanceBits(mport, n - 1, k - |mport|);
    }
  }

  /** The sub-ports of the last instance. */
  lemma FrontBits(mport: seq<nat>, n: nat, k: nat)
    requires n > 0 && k < |mport|
    ensures k < |SubPorts(mport, n)| && SubPorts(mport, n)[k] == SubPort(n - 1, k, mport[k])
    ensures k < |Slices(PortWidths(SubPorts(mport, n)))|
    ensures Slices(PortWidths(SubPorts(mport, n)))[k]
            == Slice(Times(n - 1, Sum(mport)) + Sum(mport[k + 1..]), mport[k])
  {
    FrontInstance(mport, n);
    TotalWidth(mport, n - 1);
    InstanceSlices(mport, n - 1, 0, k);
    assert mport[0..] == mport;
  }

  /** The slices of an array, in front those of the last instance. */
  lemma FrontInstance(mport: seq<nat>, n: nat)
    requires n > 0
    ensures var here, rest := InstancePorts(mport, n - 1, 0), SubPorts(mport, n - 1);
      var all := Slices(PortWidths(here + rest));
      && |here| == |mport| && |all| == |here| + |rest| && |Slices(PortWidths(rest))| == |rest|
      && (forall i | 0 <= i < |here| :: all[i] == Slice(Slices(mport)[i].off + Sum(PortWidths(rest)), mport[i]))
      && (forall i | 0 <= i < |rest| :: all[|here| + i] == Slices(PortWidths(rest))[i])
  {
    var here, rest := InstancePorts(mport, n - 1, 0), SubPorts(mport, n - 1);
    InstanceWidths(mport, n - 1, 0);
    assert mport[0..] == mport;
    PortWidthsAppend(here, rest);
    PortWidthsLength(rest);
    SlicesAppend(mport, PortWidths(rest));
  }

  lemma {:induction false} InstanceWidths(mport: seq<nat>, inst: nat, ldx: nat)
    requires ldx <= |mport|
    ensures PortWidths(InstancePorts(mport, inst, ldx)) == mport[ldx..]
    ensures |InstancePorts(mport, inst, ldx)| == |mport| - ldx
    decreases |mport| - ldx
  {
    if ldx < |mport| {
      InstanceWidths(mport, inst, ldx + 1);
      assert mport[ldx..] == [mport[ldx]] + mport[ldx + 1..];
    }
  }

  lemma {:induction false} TotalWidth(mport: seq<nat>, n: nat)
    ensures Sum(PortWidths(SubPorts(mport, n))) == Times(n, Sum(mport))
  {
    if n > 0 {
      TotalWidth(mport, n - 1);
      MoreWidths(mport, n);
      SumAppend(mport, PortWidths(SubPorts(mport, n - 1)));
    }
  }

  lemma MoreWidths(mport: seq<nat>, n: nat)
    requires n > 0
    ensures PortWidths(SubPorts(mport, n)) == mport + PortWidths(SubPorts(mport, n - 1))
  {
    PortWidthsAppend(InstancePorts(mport, n - 1, 0), SubPorts(mport, n - 1));
    InstanceWidths(mport, n - 1, 0);
    assert mport[0..] == mport;
  }

  lemma {:induction false} SlicesAppend(a: seq<nat>, b: seq<nat>)
    ensures |Slices(a + b)| == |a| + |b|
    ensures forall i | 0 <= i < |a| :: Slices(a + b)[i] == Slice(Slices(a)[i].off + Sum(b), a[i])
    ensures forall i | 0 <= i < |b| :: Slices(a + b)[|a| + i] == Slices(b)[i]
  {
    if a == [] {
      assert a + b == b;
    } else {
      assert (a + b)[1..] == a[1..] + b;
      SlicesAppend(a[1..], b);
      SumAppend(a[1..], b);
      forall i | 0 < i < |a| ensures Slices(a + b)[i] == Slice(Slices(a)[i].off + Sum(b), a[i]) {
        assert Slices(a + b)[i] == Slices(a[1..] + b)[i - 1] && Slices(a)[i] == Slices(a[1..])[i - 1];
      }
    }
  }

  lemma {:induction false} InstanceSlices(mport: seq<nat>, inst: nat, ldx: nat, k: nat)
    requires ldx <= |mport| && k < |mport| - ldx
    ensures k < |InstancePorts(mport, inst, ldx)| && k < |Slices(mport[ldx..])|
    ensures InstancePorts(mport, inst, ldx)[k] == SubPort(inst, ldx + k, mport[ldx + k])
    ensures Slices(mport[ldx..])[k].off == Sum(mport[ldx + k + 1..])
    decreases |mport| - ldx
  {
    assert mport[ldx..][1..] == mport[ldx + 1..];
    InstanceWidths(mport, inst, ldx);
    if k > 0 {
      InstanceSlices(mport, inst, ldx + 1, k - 1);
    }
  }

  // The choice of the connection.

  datatype Connection = Direct | Replicated | Sliced | Mismatch

  /** Slices fit a signal exactly when it is as wide as all of the sub-ports. */
  lemma SlicesFit(widths: seq<nat>, sigWidth: nat)
    requires widths != []
    ensures Inside(Slices(widths), sigWidth) <==> Sum(widths) <= sigWidth
  {
    SlicesInside(widths);
    assert Slices(widths)[0] in Slices(widths);
  }

  /** How the sub-ports of one port are connected to a signal; the one of a single
      instance was made to fit. The signal is given whole to a single sub-port, and to
      each one of an array with a sub-port for every instance. Otherwise it is cut; and of
      a port that is itself a concatenation, in an array, a signal as wide as one instance
      is cut as if it were as wide as all. `parts` tells what each sub-port gets. */
  method ConnectPorts(mport: seq<nat>, n: nat, prts: seq<SubPort>, prtsVectorWidth: nat, sigWidth: nat)
    returns (c: Connection, parts: seq<Slice>)
    requires n >= 1 && prts == SubPorts(mport, n) && prtsVectorWidth == Sum(PortWidths(prts)) > 0
    requires n == 1 ==> sigWidth == prtsVectorWidth
    ensures c == Mismatch <==> n != 1 && sigWidth != prtsVectorWidth && sigWidth != Sum(mport)
    ensures c == Direct <==> n == 1 && |mport| == 1
    ensures c == Replicated <==> n > 1 && |mport| == 1 && sigWidth == mport[0]
    ensures c == Direct || c == Replicated ==> forall p <- prts :: p.wid == sigWidth
    ensures c == Sliced ==> (Inside(Slices(PortWidths(prts)), sigWidth) <==> sigWidth == prtsVectorWidth)
    ensures c == Sliced && sigWidth != prtsVectorWidth ==> |mport| > 1 && n > 1 && sigWidth == Sum(mport)
    ensures c == Mismatch ==> parts == []
    ensures c != Mismatch ==> |parts| == |prts| && forall i | 0 <= i < |prts| :: parts[i].wid == prts[i].wid
    ensures c == Direct || c == Replicated ==> forall i | 0 <= i < |parts| :: parts[i] == Slice(0, sigWidth)
    ensures c == Sliced ==> parts == Slices(PortWidths(prts))
  {
    PortCounts(mport, n);
    if n != 1 && sigWidth != prtsVectorWidth && sigWidth != prtsVectorWidth / n {
      return Mismatch, [];
    }
    if |prts| == 1 {
      OnePort(mport, n);
      return Direct, [Slice(0, sigWidth)];
    }
    if sigWidth == prtsVectorWidth / n && |prts| / n == 1 {
      OnePort(mport, n);
      parts := Replicate(|prts|, sigWidth);
      return Replicated, parts;
    }
    SlicesFit(PortWidths(prts), sigWidth);
    parts := SlicePorts(prts);
    SliceWidths(prts);
    return Sliced, parts;
  }

  method Replicate(count: nat, sigWidth: nat) returns (parts: seq<Slice>)
    ensures |parts| == count && forall i | 0 <= i < count :: parts[i] == Slice(0, sigWidth)
  {
    parts := [];
    for ldx := 0 to count
      invariant |parts| == ldx && forall i | 0 <= i < ldx :: parts[i] == Slice(0, sigWidth)
    {
      parts := parts + [Slice(0, sigWidth)];
    }
  }

  lemma {:induction false} SliceWidths(prts: seq<SubPort>)
    ensures var slices := Slices(PortWidths(prts));
            |slices| == |prts| && forall i | 0 <= i < |prts| :: slices[i].wid == prts[i].wid
  {
    if prts != [] {
      SliceWidths(prts[1..]);
    }
  }

  /** Two instances with a port made of two scalars, and a signal of two bits: the slices
      are cut from four bits. */
  method SlicedTooWide() returns (c: Connection, parts: seq<Slice>)
    ensures c == Sliced && parts == Slices(PortWidths(SubPorts([1, 1], 2))) && !Inside(parts, 2)
  {
    var prts := SubPorts([1, 1], 2);
    ghost var one := InstancePorts([1, 1], 1, 0);
    assert one[0] == SubPort(1, 0, 1) && prts[0] == one[0];
    assert Sum([1, 1]) == 2 by { assert [1, 1][1..] == [1] && [1][1..] == []; }
    TotalWidth([1, 1], 2);
    TimesIsProduct(2, 2);
    c, parts := ConnectPorts([1, 1], 2, prts, 4, 2);
    assert prts[0] in prts;
  }

  /** The sub-ports of `n` instances are `n` times those of one. */
  lemma PortCounts(mport: seq<nat>, n: nat)
    requires n >= 1
    ensures var prts := SubPorts(mport, n); var width := Sum(PortWidths(prts));
      && |prts| / n == |mport| && width / n == Sum(mport) && width >= Sum(mport)
      && |PortWidths(prts)| == |prts| && (|prts| == 1 <==> n == 1 && |mport| == 1) && (mport == [] ==> width == 0)
  {
    TotalWidth(mport, n);
    TotalPorts(mport, n);
    TimesIsProduct(n, Sum(mport));
    TimesIsProduct(n, |mport|);
    PortWidthsLength(SubPorts(mport, n));
    Quotient(n, Sum(mport));
    Quotient(n, |mport|);
  }

  lemma Quotient(n: nat, k: nat)
    requires n >= 1
    ensures n * k / n == k && n * k >= k && (n * k == 1 <==> n == 1 && k == 1)
  {
    var x := n * k;
    SameQuotient(n, k, x / n, x % n);
    if k > 0 {
      AtLeast(k, n);
    }
  }

  lemma SameQuotient(n: nat, k: nat, q: int, r: int)
    requires n * k == n * q + r && 0 <= r < n
    ensures q == k
  {
    if q < k {
      Distribute(n, k, q);
      AtLeast(n, k - q);
    } else if q > k {
      Distribute(n, q, k);
      AtLeast(n, q - k);
    }
  }

  lemma Distribute(n: nat, a: int, b: int)
    ensures n * (a - b) == n * a - n * b
  {
  }

  lemma {:induction false} TotalPorts(mport: seq<nat>, n: nat)
    ensures |SubPorts(mport, n)| == Times(n, |mport|)
  {
    if n > 0 {
      TotalPorts(mport, n - 1);
      InstanceWidths(mport, n - 1, 0);
    }
  }

  lemma {:induction false} OnePort(mport: seq<nat>, n: nat)
    requires |mport| == 1
    ensures forall p <- SubPorts(mport, n) :: p.wid == mport[0]
    ensures Sum(mport) == mport[0]
  {
    if n > 0 {
      OnePort(mport, n - 1);
      assert InstancePorts(mport, n - 1, 0) == [SubPort(n - 1, 0, mport[0])] + InstancePorts(mport, n - 1, 1);
    }
    assert mport[1..] == [];
  }
}
