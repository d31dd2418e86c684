/** Constant selects of parameters and of vectors, whichever way they are numbered. */
module Selects {
  import opened Verinum
  import opened PExprs

  /** The declared range of a vector; bits are stored from its lsb on. */
  datatype Range = Range(msb: int, lsb: int)

  datatype Select =
    | BitSel(b: int)
    | PartSel(msv: int, lsv: int)
    | UpSel(base: int, wid: nat)
    | DownSel(base: int, wid: nat)

  function Width(r: Range): nat {
    if r.msb >= r.lsb then r.msb - r.lsb + 1 else r.lsb - r.msb + 1
  }

  /** The canonical index of a declared bit number. */
  function SbToIdx(r: Range, sb: int): int {
    if r.msb >= r.lsb then sb - r.lsb else r.lsb - sb
  }

  /** The declared bit numbers that a select names run from `Lo` to `Hi`. */
  function Lo(s: Select): int {
    match s
    case BitSel(b) => b
    case PartSel(m, l) => if m < l then m else l
    case UpSel(b, _) => b
    case DownSel(b, w) => b - w + 1
  }

  function Hi(s: Select): int {
    match s
    case BitSel(b) => b
    case PartSel(m, l) => if m < l then l else m
    case UpSel(b, w) => b + w - 1
    case DownSel(b, _) => b
  }

  predicate Proper(s: Select) {
    (s.UpSel? || s.DownSel?) ==> s.wid >= 1
  }

  function Wid(s: Select): (w: nat)
    requires Proper(s)
    ensures w >= 1
  {
    Hi(s) - Lo(s) + 1
  }

  /** The lowest canonical index among the named bits. */
  function Low(r: Range, s: Select): int {
    var a, b := SbToIdx(r, Lo(s)), SbToIdx(r, Hi(s));
    if a < b then a else b
  }

  /** A low index and a width stand for exactly the declared bits a select names. */
  ghost predicate Denotes(r: Range, s: Select, low: int, wid: nat) {
    forall sb :: Lo(s) <= sb <= Hi(s) <==> low <= SbToIdx(r, sb) < low + wid
  }

  /** Nothing but `Low` and `Wid` denotes the named bits. */
  lemma DenotesExact(r: Range, s: Select, low: int, wid: nat)
    requires Proper(s)
    ensures Denotes(r, s, low, wid) <==> low == Low(r, s) && wid == Wid(s)
  {
    if Denotes(r, s, low, wid) {
      var lo, hi := Lo(s), Hi(s);
      var below, above := lo - 1, hi + 1;
      assert low <= SbToIdx(r, lo) < low + wid && low <= SbToIdx(r, hi) < low + wid;
      assert !(low <= SbToIdx(r, below) < low + wid);
      assert !(low <= SbToIdx(r, above) < low + wid);
    }
  }

  /** A part select that runs the way its range does. */
  predicate InOrder(r: Range, m: int, l: int) {
    if r.msb >= r.lsb then m >= l else m <= l
  }

  /** An indexed select in the form of a plain part select. */
  function AsPart(r: Range, s: Select): Select {
    if r.msb >= r.lsb then PartSel(Hi(s), Lo(s)) else PartSel(Lo(s), Hi(s))
  }

  lemma AsPartSame(r: Range, s: Select)
    requires Proper(s)
    ensures InOrder(r, AsPart(r, s).msv, AsPart(r, s).lsv)
    ensures Low(r, AsPart(r, s)) == Low(r, s) && Wid(AsPart(r, s)) == Wid(s)
    ensures forall low: int, wid: nat :: Denotes(r, AsPart(r, s), low, wid) <==> Denotes(r, s, low, wid)
  {
    forall low: int, wid: nat ensures Denotes(r, AsPart(r, s), low, wid) <==> Denotes(r, s, low, wid) {
      DenotesExact(r, s, low, wid);
      DenotesExact(r, AsPart(r, s), low, wid);
    }
  }

  // Parameters (elab_expr.cc).

  datatype Param = Param(value: Bits, hasLen: bool, hasSign: bool, range: Option<Range>)

  /** Without a declared range the bits are numbered down to 0. */
  function ParamRange(par: Param): Range {
    if par.range.Some? then par.range.value else Range(|par.value| - 1, 0)
  }

  function SignBit(par: Param): V
    requires par.value != []
  {
    if par.hasSign then par.value[|par.value| - 1] else V0
  }

  /** The bit at a canonical index: x outside of a sized value, and the extension above
      the top of an unsized one. */
  function BitAt(par: Param, idx: int): V
    requires par.value != []
  {
    if 0 <= idx < |par.value| then par.value[idx]
    else if idx < 0 || par.hasLen then Vx
    else SignBit(par)
  }

  /** The bits a select names, from the least significant on. */
  function Selected(par: Param, s: Select): (r: Bits)
    requires par.value != [] && Proper(s)
    ensures |r| == Wid(s)
  {
    seq(Wid(s), i requires 0 <= i < Wid(s) => BitAt(par, Low(ParamRange(par), s) + i))
  }

  lemma SelectedIs(par: Param, s: Select, low: int, bits: Bits)
    requires par.value != [] && Proper(s) && low == Low(ParamRange(par), s) && |bits| == Wid(s)
    requires forall i | 0 <= i < |bits| :: bits[i] == BitAt(par, low + i)
    ensures bits == Selected(par, s)
  {
  }

  function AllX(wid: nat): Bits {
    seq(wid, i => Vx)
  }

  method ParamPartSelectBits(par: Param, wid: nat, lsv: int) returns (result: Bits)
    requires par.value != []
    ensures |result| == wid
    ensures forall i | 0 <= i < wid :: result[i] == BitAt(par, lsv + i)
  {
    result := AllX(wid);
    for idx := 0 to wid
      invariant |result| == wid
      invariant forall i | 0 <= i < idx :: result[i] == BitAt(par, lsv + i)
      invariant forall i | idx <= i < wid :: result[i] == Vx
    {
      var off := idx + lsv;
      if off < 0 {
      } else if off < |par.value| {
        result := result[idx := par.value[off]];
      } else if par.hasLen {
      } else {
        result := result[idx := SignBit(par)];
      }
    }
  }

  /** A plain part select. It is refused exactly when it runs the wrong way. */
  method ParamPart(par: Param, msv: int, lsv: int, defined: bool) returns (r: Option<Bits>)
    requires par.value != []
    ensures !defined ==> r == Some([Vx])
    ensures defined ==> (r.Some? <==> InOrder(ParamRange(par), msv, lsv))
    ensures defined && r.Some? ==> r.value == Selected(par, PartSel(msv, lsv))
  {
    var range := ParamRange(par);
    if !defined {
      return Some([Vx]);
    }
    if (msv > lsv && range.msb < range.lsb) || (msv < lsv && range.msb >= range.lsb) {
      return None;
    }
    var wid := 1 + if msv > lsv then msv - lsv else lsv - msv;
    var base := if range.msb < range.lsb then range.lsb - lsv else lsv - range.lsb;
    var result := ParamPartSelectBits(par, wid, base);
    SelectedIs(par, PartSel(msv, lsv), base, result);
    r := Some(result);
  }

  method ParamIdxUp(par: Param, base: Option<int>, wid: nat) returns (r: Bits)
    requires par.value != [] && wid >= 1
    ensures r == if base.None? then AllX(wid) else Selected(par, UpSel(base.value, wid))
  {
    if base.None? {
      return AllX(wid);
    }
    var range, lsv := ParamRange(par), base.value;
    var parBase := range.lsb;
    if range.msb < range.lsb {
      parBase := lsv;
      lsv := range.lsb - wid + 1;
    }
    r := ParamPartSelectBits(par, wid, lsv - parBase);
    SelectedIs(par, UpSel(base.value, wid), lsv - parBase, r);
  }

  method ParamIdxDo(par: Param, base: Option<int>, wid: nat) returns (r: Bits)
    requires par.value != [] && wid >= 1
    ensures r == if base.None? then AllX(wid) else Selected(par, DownSel(base.value, wid))
  {
    if base.None? {
      return AllX(wid);
    }
    var range, lsv := ParamRange(par), base.value;
    var parBase := range.lsb + wid - 1;
    if range.msb < range.lsb {
      parBase := lsv;
      lsv := range.lsb;
    }
    r := ParamPartSelectBits(par, wid, lsv - parBase);
    SelectedIs(par, DownSel(base.value, wid), lsv - parBase, r);
  }

  /** A bit select is the part select of one bit. */
  method ParamBit(par: Param, index: Option<int>) returns (r: Bits)
    requires par.value != []
    ensures r == if index.None? then [Vx] else Selected(par, PartSel(index.value, index.value))
  {
    if index.None? {
      return [Vx];
    }
    var lv, rb := par.value, Vx;
    var parMv, parLv := |lv| - 1, 0;
    if par.range.Some? {
      parMv, parLv := par.range.value.msb, par.range.value.lsb;
    }
    var ridx := index.value;
    if parMv >= parLv {
      ridx := ridx - parLv;
    } else {
      ridx := parLv - ridx;
    }
    if ridx >= 0 && ridx < |lv| {
      rb := lv[ridx];
    } else if ridx >= 0 && !par.hasLen {
      if par.hasSign {
        rb := lv[|lv| - 1];
      } else {
        rb := V0;
      }
    }
    r := [rb];
    SelectedIs(par, PartSel(index.value, index.value), ridx, r);
  }

  /** Indexed selects, plain part selects and bit selects agree on every parameter. */
  lemma SelectsAgree(par: Param, s: Select)
    requires par.value != [] && Proper(s)
    ensures var r := ParamRange(par);
            && InOrder(r, AsPart(r, s).msv, AsPart(r, s).lsv)
            && Selected(par, AsPart(r, s)) == Selected(par, s)
    ensures s.BitSel? ==> Selected(par, PartSel(s.b, s.b)) == Selected(par, s)
    ensures forall sb | Lo(s) <= sb <= Hi(s) :: var i := SbToIdx(ParamRange(par), sb) - Low(ParamRange(par), s);
            0 <= i < Wid(s) && Selected(par, s)[i] == BitAt(par, SbToIdx(ParamRange(par), sb))
  {
    AsPartSame(ParamRange(par), s);
    DenotesExact(ParamRange(par), s, Low(ParamRange(par), s), Wid(s));
  }

  /** Of a parameter with a declared range as wide as its value, a select gives the bits
      that lie in the range; outside of it a sized parameter gives x on both sides, and an
      unsized one x below and above it the extension of its value. */
  lemma SelectedBits(par: Param, s: Select, sb: int)
    requires par.value != [] && Proper(s) && Lo(s) <= sb <= Hi(s)
    requires Width(ParamRange(par)) == |par.value|
    ensures var r := ParamRange(par);
            var i, bit := SbToIdx(r, sb) - Low(r, s), if r.msb >= r.lsb then sb - r.lsb else r.lsb - sb;
            && 0 <= i < Wid(s)
            && (r.lsb <= sb <= r.msb || r.msb <= sb <= r.lsb ==>
                  0 <= bit < |par.value| && Selected(par, s)[i] == par.value[bit])
            && (!(r.lsb <= sb <= r.msb) && !(r.msb <= sb <= r.lsb) && par.hasLen ==> Selected(par, s)[i] == Vx)
            && (bit < 0 ==> Selected(par, s)[i] == Vx)
            && (bit >= |par.value| && !par.hasLen && par.hasSign ==>
                  Selected(par, s)[i] == par.value[|par.value| - 1])
            && (bit >= |par.value| && !par.hasLen && !par.hasSign ==> Selected(par, s)[i] == V0)
  {
    SelectsAgree(par, s);
  }

  /** The number bits stand for, in two's complement if they are signed. */
  function Number(b: Bits, signed: bool): int {
    if Negative(b, signed) then ToNat(b) - Pow2(|b|) else ToNat(b)
  }

  /** Selecting all of an unsized parameter and more extends its value, whatever its
      range: the number it stands for is the same at every width. */
  lemma UnsizedExtends(par: Param, s: Select)
    requires par.value != [] && !par.hasLen && Proper(s)
    requires Low(ParamRange(par), s) == 0 && Wid(s) >= |par.value|
    ensures Selected(par, s) == par.value + Fill(Wid(s) - |par.value|, SignBit(par))
    ensures Number(Selected(par, s), par.hasSign) == Number(par.value, par.hasSign)
  {
    var n := Wid(s) - |par.value|;
    var ext := Fill(n, SignBit(par));
    SelectedIs(par, s, 0, par.value + ext);
    if n == 0 {
      assert par.value + ext == par.value;
    } else {
      ToNatSplit(par.value, ext);
      if Negative(par.value, par.hasSign) {
        ToNatOnes(n);
        assert ext == Fill(n, V1);
        Pow2Add(|par.value|, n);
        Less(Pow2(|par.value|), Pow2(n));
      } else {
        ToNatZero(ext);
      }
    }
  }

  lemma Less(p: nat, q: nat)
    ensures p * (q - 1) == p * q - p
  {
  }

  lemma {:induction false} ToNatOnes(n: nat)
    ensures ToNat(Fill(n, V1)) == Pow2(n) - 1
  {
    if n > 0 {
      assert Fill(n, V1)[1..] == Fill(n - 1, V1);
      ToNatOnes(n - 1);
    }
  }

  lemma {:induction false} Pow2Add(m: nat, n: nat)
    ensures Pow2(m) * Pow2(n) == Pow2(m + n)
  {
    if m > 0 {
      Pow2Add(m - 1, n);
      DoubleProduct(Pow2(m - 1), Pow2(n));
    }
  }

  // L-values (elab_lval.cc).

  datatype LvalPart = Whole | SetPart(off: int, wid: int) | Refused

  /** The assignment reaches exactly the named bits. */
  ghost predicate Reaches(reg: Range, lv: LvalPart, s: Select) {
    match lv
    case Whole => Denotes(reg, s, 0, Width(reg))
    case SetPart(off, wid) => wid >= 0 && Denotes(reg, s, off, wid)
    case Refused => false
  }

  method LvalNetBit(reg: Range, lsb: int) returns (lv: LvalPart)
    ensures lv.Refused? <==> !(0 <= SbToIdx(reg, lsb) < Width(reg))
    ensures !lv.Refused? ==> Reaches(reg, lv, BitSel(lsb))
  {
    DenotesExact(reg, BitSel(lsb), Low(reg, BitSel(lsb)), 1);
    if lsb == reg.msb && lsb == reg.lsb {
      return Whole;
    }
    var loff := SbToIdx(reg, lsb);
    if loff < 0 || loff >= Width(reg) {
      return Refused;
    }
    return SetPart(loff, 1);
  }

  /** A part that runs the wrong way is refused; one that reaches out of range is not. */
  method LvalNetPart(reg: Range, msb: int, lsb: int) returns (lv: LvalPart)
    ensures lv.Refused? <==> !InOrder(reg, msb, lsb)
    ensures !lv.Refused? ==> Reaches(reg, lv, PartSel(msb, lsb))
  {
    DenotesExact(reg, PartSel(msb, lsb), Low(reg, PartSel(msb, lsb)), Wid(PartSel(msb, lsb)));
    if msb == reg.msb && lsb == reg.lsb {
      return Whole;
    }
    var loff, moff := SbToIdx(reg, lsb), SbToIdx(reg, msb);
    var wid := moff - loff + 1;
    if moff < loff {
      return Refused;
    }
    return SetPart(loff, wid);
  }

  /** An indexed part reaches the named bits exactly when the vector has more than one
      bit, or the select goes up, or it is one bit wide. */
  method LvalNetIdx(reg: Range, lsv: int, wid: nat, up: bool) returns (lv: LvalPart)
    requires wid >= 1
    ensures !lv.Refused?
    ensures Reaches(reg, lv, if up then UpSel(lsv, wid) else DownSel(lsv, wid)) <==>
            reg.msb != reg.lsb || up || wid == 1
    ensures reg.msb == reg.lsb ==> Reaches(reg, lv, UpSel(lsv, wid))
  {
    var offset: int := 0;
    if (reg.msb < reg.lsb && up) || (reg.msb > reg.lsb && !up) {
      offset := 1 - wid;
    }
    var relBase := SbToIdx(reg, lsv) + offset;
    DenotesExact(reg, if up then UpSel(lsv, wid) else DownSel(lsv, wid), relBase, wid);
    DenotesExact(reg, UpSel(lsv, wid), relBase, wid);
    if relBase == 0 && wid == Width(reg) {
      return Whole;
    }
    return SetPart(relBase, wid);
  }

  /** In a vector with the one bit 0, [1 -: 2] names the bits 1 and 0 but reaches 2 and 1. */
  method DownSelectMisplaced() returns (lv: LvalPart)
    ensures Reaches(Range(0, 0), lv, PartSel(2, 1)) && !Reaches(Range(0, 0), lv, DownSel(1, 2))
  {
    lv := LvalNetIdx(Range(0, 0), 1, 2, false);
    AsPartSame(Range(0, 0), UpSel(1, 2));
  }

  // Nets (elab_net.cc).

  /** Some named bit is in the vector, or all of them are. */
  ghost predicate Touches(sig: Range, s: Select) {
    exists sb :: Lo(s) <= sb <= Hi(s) && 0 <= SbToIdx(sig, sb) < Width(sig)
  }

  ghost predicate Within(sig: Range, s: Select) {
    forall sb | Lo(s) <= sb <= Hi(s) :: 0 <= SbToIdx(sig, sb) < Width(sig)
  }

  lemma WithinExact(sig: Range, s: Select)
    requires Proper(s)
    ensures Within(sig, s) <==> 0 <= Low(sig, s) && Low(sig, s) + Wid(s) <= Width(sig)
  {
    DenotesExact(sig, s, Low(sig, s), Wid(s));
    assert Lo(s) <= Hi(s);
    if Within(sig, s) {
      var lo, hi := Lo(s), Hi(s);
      assert 0 <= SbToIdx(sig, lo) < Width(sig) && 0 <= SbToIdx(sig, hi) < Width(sig);
    }
  }

  /** The canonical bounds of a select; `ok` is false when it is to be skipped. A bit above
      the range or a part that runs the wrong way is counted as an error and recovered
      from; what lies below the range is left to the callers. */
  method EvalPartSelect(sig: Range, s: Select) returns (ok: bool, midx: int, lidx: int, errors: nat)
    requires Proper(s)
    ensures !s.BitSel? ==> (ok <==> Touches(sig, s))
    ensures !s.BitSel? && ok ==> midx >= lidx && Denotes(sig, s, lidx, midx - lidx + 1)
    ensures s.BitSel? ==> ok && (errors > 0 <==> SbToIdx(sig, s.b) >= Width(sig))
    ensures s.BitSel? && errors == 0 ==> midx == lidx && Denotes(sig, s, lidx, 1)
    ensures s.BitSel? && errors > 0 ==> midx == lidx == 0
    ensures s.PartSel? ==> (errors > 0 <==> !InOrder(sig, s.msv, s.lsv))
    ensures s.UpSel? || s.DownSel? ==> errors == 0
  {
    errors, midx, lidx := 0, 0, 0;
    DenotesExact(sig, s, Low(sig, s), Wid(s));
    match s
    case BitSel(b) =>
      midx := SbToIdx(sig, b);
      if midx >= Width(sig) {
        errors := 1;
        midx := 0;
      }
      lidx := midx;
      return true, midx, lidx, errors;
    case PartSel(msb, lsb) =>
      lidx, midx := SbToIdx(sig, lsb), SbToIdx(sig, msb);
      if lidx > midx {
        lidx, midx := midx, lidx;
        errors := 1;
      }
      ok := Overlaps(sig, s, lidx, midx);
    case UpSel(base, wid) =>
      midx, lidx := SbToIdx(sig, base), SbToIdx(sig, base + wid - 1);
      if midx < lidx {
        midx, lidx := lidx, midx;
      }
      ok := Overlaps(sig, s, lidx, midx);
    case DownSel(base, wid) =>
      midx, lidx := SbToIdx(sig, base), SbToIdx(sig, base - wid + 1);
      if midx < lidx {
        midx, lidx := lidx, midx;
      }
      ok := Overlaps(sig, s, lidx, midx);
  }

  /** The part of a net that is the l-value of a continuous assignment. A part that starts
      below the vector is refused. */
  method LnetSelect(sig: Range, s: Select) returns (r: Option<(int, nat)>, errors: nat)
    requires Proper(s)
    ensures errors == 0 && r.Some? ==> r.value.0 >= 0 && Denotes(sig, s, r.value.0, r.value.1)
    ensures errors == 0 && r.None? <==> !s.BitSel? && !Touches(sig, s) && (s.PartSel? ==> InOrder(sig, s.msv, s.lsv))
    ensures Low(sig, s) < 0 && (s.BitSel? || Touches(sig, s)) ==> r.None? && errors > 0
    ensures Within(sig, s) && (s.PartSel? ==> InOrder(sig, s.msv, s.lsv)) ==> errors == 0 && r.Some?
    ensures s.BitSel? ==> (errors == 0 <==> Within(sig, s))
  {
    var ok, midx, lidx;
    ok, midx, lidx, errors := EvalPartSelect(sig, s);
    WithinExact(sig, s);
    DenotesExact(sig, s, lidx, if midx >= lidx then midx - lidx + 1 else 0);
    if !ok {
      return None, errors;
    }
    if lidx < 0 {
      return None, errors + 1;
    }
    return Some((lidx, midx - lidx + 1)), errors;
  }

  datatype PortPart = Skipped | WholePort | PortSlice(base: int, wid: nat) | Aborted

  /** The part of a signal that a port expression of the module stands for. */
  method PortSelect(sig: Range, s: Select) returns (p: PortPart, errors: nat)
    requires Proper(s)
    ensures p.Skipped? <==> !s.BitSel? && !Touches(sig, s)
    ensures errors == 0 && p.PortSlice? ==> Denotes(sig, s, p.base, p.wid)
    ensures errors == 0 && p.WholePort? ==> Denotes(sig, s, 0, Width(sig))
    ensures errors == 0 && p.PortSlice? ==> (Within(sig, s) <==> 0 <= p.base && p.base + p.wid <= Width(sig))
    ensures errors == 0 && p.Aborted? ==> !Within(sig, s)
    ensures s.BitSel? && Low(sig, s) < 0 && Width(sig) > 1 ==> errors == 0 && p == PortSlice(Low(sig, s), 1)
  {
    var ok, midx, lidx;
    ok, midx, lidx, errors := EvalPartSelect(sig, s);
    WithinExact(sig, s);
    DenotesExact(sig, s, lidx, if midx >= lidx then midx - lidx + 1 else 0);
    if !ok {
      return Skipped, errors;
    }
    if lidx == 0 && midx == Width(sig) - 1 {
      return WholePort, errors;
    }
    var swid := if midx >= lidx then midx - lidx + 1 else lidx - midx + 1;
    if swid >= Width(sig) {
      return Aborted, errors;
    }
    return PortSlice(lidx, swid), errors;
  }

  /** Bit -1 of a port [3:0] becomes a slice at the canonical index -1, without an error. */
  method BelowUnnoticed() returns (p: PortPart, errors: nat)
    ensures p == PortSlice(-1, 1) && errors == 0
    ensures !Within(Range(3, 0), BitSel(-1))
  {
    p, errors := PortSelect(Range(3, 0), BitSel(-1));
    WithinExact(Range(3, 0), BitSel(-1));
  }

  /** Whether a select has a bit inside of the vector. */
  method Overlaps(sig: Range, s: Select, lidx: int, midx: int) returns (ok: bool)
    requires Proper(s) && lidx == Low(sig, s) && midx == lidx + Wid(s) - 1
    ensures ok <==> Touches(sig, s)
  {
    ok := !(lidx >= Width(sig) || midx < 0);
    DenotesExact(sig, s, lidx, Wid(s));
    if ok {
      var idx := if lidx < 0 then 0 else lidx;
      ghost var sb := if sig.msb >= sig.lsb then sig.lsb + idx else sig.lsb - idx;
      assert SbToIdx(sig, sb) == idx;
      assert Lo(s) <= sb <= Hi(s);
    }
  }
}
