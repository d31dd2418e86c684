/** The widths of sums (elab_expr.cc): an unsized sum is wide enough to lose nothing. */
module Widths {
  import opened Verinum

  /** A sum of unsigned literals, nets and parameters, each with some value it may have. */
  datatype Expr =
    | Number(len: nat, hasLen: bool, value: nat)
    | Net(width: nat, value: nat)
    | Param(width: nat, ranged: bool, value: nat)
    | Add(left: Expr, right: Expr)

  /** The widths that the test leaves behind in the nodes. */
  datatype Tested = Leaf(exprWidth: nat) | Sum(left: Tested, right: Tested, exprWidth: nat)

  predicate InRange(e: Expr) {
    match e
    case Number(len, _, v) => v < Pow2(len)
    case Net(w, v) => v < Pow2(w)
    case Param(w, _, v) => v < Pow2(w)
    case Add(l, r) => InRange(l) && InRange(r)
  }

  function ExactSum(e: Expr): nat {
    match e
    case Number(_, _, v) => v
    case Net(_, v) => v
    case Param(_, _, v) => v
    case Add(l, r) => ExactSum(l) + ExactSum(r)
  }

  /** An unsized literal or parameter occurs. */
  predicate Unsized(e: Expr) {
    match e
    case Number(_, hasLen, _) => !hasLen
    case Net(_, _) => false
    case Param(_, ranged, _) => !ranged
    case Add(l, r) => Unsized(l) || Unsized(r)
  }

  function Max(a: nat, b: nat): nat {
    if a > b then a else b
  }

  /** The width of a sum all of whose parts know whether it is unsized. */
  function FinalWidth(e: Expr, min: nat, unsized: bool): nat {
    match e
    case Number(len, _, _) => Max(len, min)
    case Net(w, _) => Max(w, min)
    case Param(w, _, _) => w
    case Add(l, r) => Max(min, Max(FinalWidth(l, min, unsized), FinalWidth(r, min, unsized))) + if unsized then 1 else 0
  }

  /** The widths stored in the nodes of such a sum. */
  function FinalWidths(e: Expr, min: nat, unsized: bool): Tested {
    match e
    case Add(l, r) => Sum(FinalWidths(l, min, unsized), FinalWidths(r, min, unsized), FinalWidth(e, min, unsized))
    case _ => Leaf(FinalWidth(e, min, unsized))
  }

  /** Width testing tries both operands with the flag as it came, and tests an operand
      again when the other one turns out unsized. That is enough: in the end every part
      was tested as what the whole is. */
  method TestWidth(e: Expr, min: nat, flag: bool) returns (width: nat, unsizedFlag: bool, nodes: Tested)
    ensures unsizedFlag == (flag || Unsized(e))
    ensures width == FinalWidth(e, min, unsizedFlag)
    ensures nodes == FinalWidths(e, min, unsizedFlag)
    decreases e
  {
    match e
    case Number(len, hasLen, _) =>
      width, unsizedFlag := len, flag;
      if min > width {
        width := min;
      }
      if !hasLen {
        unsizedFlag := true;
      }
      nodes := Leaf(width);
    case Net(w, _) =>
      width, unsizedFlag := if w > min then w else min, flag;
      nodes := Leaf(width);
    case Param(w, ranged, _) =>
      width, unsizedFlag := w, flag;
      if !ranged {
        unsizedFlag := true;
      }
      nodes := Leaf(width);
    case Add(left, right) =>
      unsizedFlag := flag;
      var widLeft, flagLeft, nodesLeft := TestWidth(left, min, flag);
      var widRight, flagRight, nodesRight := TestWidth(right, min, flag);
      if flagRight && !flag {
        unsizedFlag := true;
        widLeft, unsizedFlag, nodesLeft := TestWidth(left, min, unsizedFlag);
      }
      if flagLeft && !flag {
        unsizedFlag := true;
        widRight, unsizedFlag, nodesRight := TestWidth(right, min, unsizedFlag);
      }
      width := min;
      if widLeft > width {
        width := widLeft;
      }
      if widRight > width {
        width := widRight;
      }
      if unsizedFlag {
        width := width + 1;
      }
      nodes := Sum(nodesLeft, nodesRight, width);
  }

  lemma {:induction false} Pow2Grows(a: nat, b: nat)
    requires a <= b
    ensures Pow2(a) <= Pow2(b)
    decreases b - a
  {
    if a < b {
      Pow2Grows(a, b - 1);
    }
  }

  /** An unsized sum never overflows its width, whatever its parts hold. */
  lemma {:induction false} UnsizedLossless(e: Expr, min: nat)
    requires InRange(e)
    ensures ExactSum(e) < Pow2(FinalWidth(e, min, true))
  {
    match e
    case Number(len, _, _) => Pow2Grows(len, FinalWidth(e, min, true));
    case Net(w, _) => Pow2Grows(w, FinalWidth(e, min, true));
    case Param(_, _, _) =>
    case Add(l, r) =>
      UnsizedLossless(l, min);
      UnsizedLossless(r, min);
      var top := FinalWidth(e, min, true) - 1;
      Pow2Grows(FinalWidth(l, min, true), top);
      Pow2Grows(FinalWidth(r, min, true), top);
  }

  /** Without an unsized part a sum is only as wide as its widest part, and the largest
      values overflow it. */
  lemma {:induction false} SizedOverflows(w: nat, min: nat)
    requires w >= min && w >= 1
    ensures var e := Add(Net(w, Pow2(w) - 1), Net(w, Pow2(w) - 1));
      && InRange(e) && !Unsized(e) && FinalWidth(e, min, false) == w && ExactSum(e) >= Pow2(w)
  {
    assert Pow2(w) == 2 * Pow2(w - 1);
  }

  /** No node is narrower than its operands. The width asked for is kept to by all but a
      parameter that is narrower and stands alone. */
  predicate Covers(t: Tested) {
    match t
    case Leaf(_) => true
    case Sum(l, r, w) => w >= l.exprWidth && w >= r.exprWidth && Covers(l) && Covers(r)
  }

  lemma {:induction false} WidthsCover(e: Expr, min: nat, unsized: bool)
    ensures Covers(FinalWidths(e, min, unsized))
    ensures FinalWidths(e, min, unsized).exprWidth == FinalWidth(e, min, unsized)
    ensures FinalWidth(e, min, unsized) >= min <==> !(e.Param? && e.width < min)
  {
    if e.Add? {
      WidthsCover(e.left, min, unsized);
      WidthsCover(e.right, min, unsized);
    }
  }

  /** A parameter of four bits asked for at eight stays at four, unless it is in a sum. */
  lemma NarrowParameter(value: nat, net: nat)
    ensures var par := Param(4, true, value);
            FinalWidth(par, 8, false) == 4 && FinalWidth(Add(par, Net(1, net)), 8, false) == 8
  {
  }

  /** The width of the widest part. */
  function Widest(e: Expr): nat {
    match e
    case Number(len, _, _) => len
    case Net(w, _) => w
    case Param(w, _, _) => w
    case Add(l, r) => Max(Widest(l), Widest(r))
  }

  /** How many sums lie upon each other. */
  function Height(e: Expr): nat {
    match e
    case Add(l, r) => 1 + Max(Height(l), Height(r))
    case _ => 0
  }

  lemma {:induction false} SizedWidth(e: Expr, min: nat)
    ensures Max(min, FinalWidth(e, min, false)) == Max(min, Widest(e))
  {
    if e.Add? {
      SizedWidth(e.left, min);
      SizedWidth(e.right, min);
    }
  }

  lemma {:induction false} UnsizedWidth(e: Expr, min: nat)
    ensures min + Height(e) <= Max(min, FinalWidth(e, min, true)) <= Max(min, Widest(e)) + Height(e)
  {
    if e.Add? {
      UnsizedWidth(e.left, min);
      UnsizedWidth(e.right, min);
    }
  }

  /** A sized sum is as wide as its widest part or as asked for; an unsized one takes at
      most one bit more for every level of sums, and exactly that if the width asked for
      is the greatest. */
  lemma SumWidth(e: Expr, min: nat)
    requires e.Add?
    ensures FinalWidth(e, min, false) == Max(min, Widest(e))
    ensures min + Height(e) <= FinalWidth(e, min, true) <= Max(min, Widest(e)) + Height(e)
    ensures Widest(e) <= min ==> FinalWidth(e, min, true) == min + Height(e)
  {
    SizedWidth(e, min);
    UnsizedWidth(e, min);
    WidthsCover(e, min, false);
    WidthsCover(e, min, true);
  }
}
