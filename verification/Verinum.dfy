/** Four-valued bit vectors, stored least significant bit first, with the few
    operations of class `verinum` that elaboration depends on. */
module Verinum {

  datatype V = V0 | V1 | Vx | Vz

  type Bits = seq<V>

  function Fill(n: nat, v: V): (r: Bits)
    ensures |r| == n && forall i | 0 <= i < n :: r[i] == v
  {
    seq(n, _ => v)
  }

  predicate Defined(b: Bits) {
    Vx !in b && Vz !in b
  }

  /** The four-valued `|` operator. */
  function OrV(l: V, r: V): V {
    if l == V1 || r == V1 then V1
    else if l != V0 || r != V0 then Vx
    else V0
  }

  /** A condition holds when some bit is a known 1. */
  predicate Truth(b: Bits) {
    V1 in b
  }

  /** The one-bit result of comparing a vector with zero: it is unknown when
      no bit is 1 and some bit is x or z. The or-reduction has the same table. */
  function NeZero(b: Bits): (r: Bits)
    ensures |r| == 1 && (Truth(r) <==> Truth(b))
  {
    [if Truth(b) then V1 else if Defined(b) then V0 else Vx]
  }

  /** Folding `|` over the bits, the way constant conditions are reduced. */
  method ReduceOr(b: Bits) returns (reduced: V)
    ensures reduced == V1 <==> Truth(b)
    ensures [reduced] == NeZero(b)
  {
    reduced := V0;
    for idx := 0 to |b|
      invariant [reduced] == NeZero(b[..idx])
    {
      assert b[..idx + 1] == b[..idx] + [b[idx]];
      reduced := OrV(reduced, b[idx]);
    }
    assert b[..|b|] == b;
  }

  function Pow2(n: nat): (p: nat)
    ensures p >= 1
  {
    if n == 0 then 1 else 2 * Pow2(n - 1)
  }

  /** The natural number read off the 1 bits. */
  function ToNat(b: Bits): nat {
    if b == [] then 0 else (if b[0] == V1 then 1 else 0) + 2 * ToNat(b[1..])
  }

  lemma {:induction false} ToNatBound(b: Bits)
    ensures ToNat(b) < Pow2(|b|)
  {
    if b != [] {
      ToNatBound(b[1..]);
    }
  }

  lemma DoubleProduct(p: nat, h: nat)
    ensures 2 * p * h == 2 * (p * h)
  {
  }

  lemma {:induction false} ToNatSplit(lo: Bits, hi: Bits)
    ensures ToNat(lo + hi) == ToNat(lo) + Pow2(|lo|) * ToNat(hi)
  {
    if lo == [] {
      assert lo + hi == hi;
    } else {
      var b := lo + hi;
      assert b[1..] == lo[1..] + hi && b[0] == lo[0];
      ToNatSplit(lo[1..], hi);
      DoubleProduct(Pow2(|lo[1..]|), ToNat(hi));
    }
  }

  lemma {:induction false} ToNatZero(b: Bits)
    ensures ToNat(b) == 0 <==> V1 !in b
  {
    if b != [] {
      ToNatZero(b[1..]);
      assert b == [b[0]] + b[1..];
    }
  }

  /** `as_long` keeps the low 63 bits of a number. */
  const LONG_BITS: nat := 63

  predicate Negative(b: Bits, signed: bool) {
    b != [] && signed && b[|b| - 1] == V1
  }

  /** What `verinum::as_long` returns: 0 for an undefined number, a value below
      zero for a signed number whose top bit is 1, and otherwise the low bits. */
  function AsLong(b: Bits, signed: bool): int {
    var top := if |b| > LONG_BITS then LONG_BITS else |b|;
    if !Defined(b) then 0
    else if Negative(b, signed) then ToNat(b[..top]) - Pow2(top)
    else ToNat(b[..top])
  }

  /** How often a `repeat` runs its body: never for an undefined or negative
      count, otherwise as often as the full value says. */
  function RepeatCount(b: Bits, signed: bool): nat {
    if !Defined(b) || Negative(b, signed) then 0 else ToNat(b)
  }

  /** The counts whose folding is exact. The excluded ones are the defined, not
      negative numbers with a 1 above bit 62 and a low part of 0 or 1. */
  predicate CountFits(b: Bits, signed: bool) {
    || !Defined(b)
    || Negative(b, signed)
    || |b| <= LONG_BITS
    || V1 !in b[LONG_BITS..]
    || V1 in b[1..LONG_BITS]
  }

  /** Constant counts are tested through `as_long`, and the test agrees with the
      real count exactly when the count fits. */
  lemma CountFoldExact(b: Bits, signed: bool)
    ensures CountFits(b, signed) <==>
            && (AsLong(b, signed) <= 0 ==> RepeatCount(b, signed) == 0)
            && (AsLong(b, signed) == 1 ==> RepeatCount(b, signed) == 1)
    ensures !CountFits(b, signed) ==> 0 <= AsLong(b, signed) <= 1 && RepeatCount(b, signed) >= 2
  {
    if Defined(b) {
      if Negative(b, signed) {
        ToNatBound(b[..if |b| > LONG_BITS then LONG_BITS else |b|]);
      } else if |b| <= LONG_BITS {
        assert b[..|b|] == b;
      } else {
        var lo, hi := b[..LONG_BITS], b[LONG_BITS..];
        assert b == lo + hi && lo[1..] == b[1..LONG_BITS];
        SplitCount(lo, hi);
      }
    }
  }

  lemma TopBitOnly(n: nat)
    ensures var b := Fill(n, V0) + [V1];
            && ToNat(b[..n]) == 0
            && RepeatCount(b, false) == Pow2(n)
  {
    var lo, b := Fill(n, V0), Fill(n, V0) + [V1];
    assert b[..n] == lo;
    ToNatZero(lo);
    ToNatSplit(lo, [V1]);
    assert ToNat([V1]) == 1;
  }

  /** A count of 64 bits with only the top one set, 2 to the power of 63, reads as 0. */
  lemma CountFoldLoses()
    ensures var b := Fill(LONG_BITS, V0) + [V1];
            !CountFits(b, false) && AsLong(b, false) == 0 && RepeatCount(b, false) == Pow2(LONG_BITS)
  {
    TopBitOnly(LONG_BITS);
    var b := Fill(LONG_BITS, V0) + [V1];
    assert b[LONG_BITS] == V1 && b[LONG_BITS..][0] == V1;
    assert V1 !in b[1..LONG_BITS];
  }

  /** Dropping the high part is exact when it is 0, and else loses 2 or more. */
  lemma SplitCount(lo: Bits, hi: Bits)
    requires lo != []
    ensures V1 !in hi ==> ToNat(lo + hi) == ToNat(lo)
    ensures V1 in hi ==> ToNat(lo + hi) >= ToNat(lo) + 2
    ensures 0 <= ToNat(lo) && (ToNat(lo) <= 1 <==> V1 !in lo[1..])
  {
    ToNatSplit(lo, hi);
    ToNatZero(hi);
    ToNatZero(lo[1..]);
    assert Pow2(|lo|) == 2 * Pow2(|lo| - 1);
    if V1 in hi {
      AtLeast(Pow2(|lo|), ToNat(hi));
    }
  }

  lemma AtLeast(p: nat, h: nat)
    requires h >= 1
    ensures p * h >= p
  {
  }
}
