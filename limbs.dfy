/**
 Little-limb-first multi-precision numbers. A limb is an unsigned machine
 word of UnitBits bits (32 or 64, by platform); a buffer of limbs denotes
 Val(s) == s[0] + base * s[1] + base^2 * s[2] + ..., with base == 2^UnitBits.
 Also the array helpers clearArray / copyArray / isZeroArray that the field
 routines call, modelled by their effect on limb values.
 */
module Limbs {
  import opened ModArith

  /** The native word width the library is built for. */
  datatype Platform = Os32 | Os64

  function UnitBits(pl: Platform): (w: nat)
    ensures w == 32 || w == 64
  {
    match pl
    case Os32 => 32
    case Os64 => 64
  }

  function Pow(b: nat, e: nat): nat
  {
    if e == 0 then 1 else b * Pow(b, e - 1)
  }

  /** The limb radix 2^UnitBits. */
  function Base(pl: Platform): (b: nat)
    ensures b > 1
  {
    PowGrows(2, UnitBits(pl));
    Pow(2, UnitBits(pl))
  }

  lemma {:induction false} PowGrows(b: nat, e: nat)
    requires b > 1
    ensures Pow(b, e) >= 1
    ensures e > 0 ==> Pow(b, e) > 1
  {
    if e > 0 {
      PowGrows(b, e - 1);
    }
  }

  lemma {:induction false} PowAdd(b: nat, m: nat, n: nat)
    ensures Pow(b, m + n) == Pow(b, m) * Pow(b, n)
    decreases m
  {
    if m > 0 {
      PowAdd(b, m - 1, n);
      assert Pow(b, m + n) == b * Pow(b, m - 1 + n);
    }
  }

  lemma {:induction false} PowMonotone(b: nat, m: nat, n: nat)
    requires b > 1 && m <= n
    ensures Pow(b, m) <= Pow(b, n)
  {
    PowAdd(b, m, n - m);
    PowGrows(b, n - m);
    PowGrows(b, m);
  }

  lemma MulDistrib(a: int, x: int, y: int, z: int)
    ensures a * (x + y * z) == a * x + (a * y) * z
  {
  }

  lemma MulMonotone(a: nat, x: int, y: int)
    requires x <= y
    ensures a * x <= a * y
  {
  }

  /** A quotient by b of a value below b * m is below m. */
  lemma DivBelow(v: int, b: int, m: int)
    requires v >= 0 && b > 0 && v < b * m
    ensures v / b < m
  {
    var q, r := v / b, v % b;
    assert v == b * q + r && r >= 0;
    if q >= m {
      MulMonotone(b, m, q);
      assert false;
    }
  }

  /** Every limb is a machine word. */
  predicate Wf(s: seq<nat>, base: nat)
  {
    forall i :: 0 <= i < |s| ==> s[i] < base
  }

  predicate AllZero(s: seq<nat>)
  {
    forall i :: 0 <= i < |s| ==> s[i] == 0
  }

  /** The number a limb sequence denotes, least significant limb first. */
  function Val(s: seq<nat>, base: nat): nat
  {
    if |s| == 0 then 0 else s[0] + base * Val(s[1..], base)
  }

  /** Val of a concatenation: the upper part is shifted by |a| limbs. */
  lemma {:induction false} ValAppend(a: seq<nat>, b: seq<nat>, base: nat)
    ensures Val(a + b, base) == Val(a, base) + Pow(base, |a|) * Val(b, base)
  {
    if |a| == 0 {
      assert a + b == b;
    } else {
      assert (a + b)[1..] == a[1..] + b;
      ValAppend(a[1..], b, base);
      MulDistrib(base, Val(a[1..], base), Pow(base, |a| - 1), Val(b, base));
    }
  }

  /** With a positive radix, a buffer denotes zero exactly when all its limbs are zero. */
  lemma {:induction false} ValZeroIff(s: seq<nat>, base: nat)
    requires base > 0
    ensures Val(s, base) == 0 <==> AllZero(s)
  {
    if |s| > 0 {
      ValZeroIff(s[1..], base);
      assert AllZero(s) <==> s[0] == 0 && AllZero(s[1..]);
    }
  }

  /** Zero limbs above index i do not contribute to the value. */
  lemma ValTrailingZeros(s: seq<nat>, i: nat, base: nat)
    requires base > 0 && i <= |s| && AllZero(s[i..])
    ensures Val(s[..i], base) == Val(s, base)
  {
    assert s == s[..i] + s[i..];
    ValAppend(s[..i], s[i..], base);
    ValZeroIff(s[i..], base);
  }

  /** Zero limbs above the first m keep the value and the well-formedness of the first m. */
  lemma ZeroExtend(s: seq<nat>, m: nat, base: nat)
    requires base > 0 && m <= |s| && Wf(s[..m], base) && AllZero(s[m..])
    ensures Wf(s, base) && Val(s, base) == Val(s[..m], base)
  {
    assert forall i :: m <= i < |s| ==> s[i] == s[m..][i - m];
    ValTrailingZeros(s, m, base);
  }

  /** n limbs hold values below base^n. */
  lemma {:induction false} ValBound(s: seq<nat>, base: nat)
    requires base > 1 && Wf(s, base)
    ensures Val(s, base) < Pow(base, |s|)
  {
    if |s| > 0 {
      ValBound(s[1..], base);
      var v, q := Val(s[1..], base), Pow(base, |s| - 1);
      MulMonotone(base, v + 1, q);
      assert base * (v + 1) == base * v + base;
      assert Val(s, base) == s[0] + base * v;
      assert Pow(base, |s|) == base * q;
    }
  }

  /** A nonzero top limb makes the value at least base^(|s|-1). */
  lemma ValLowerBound(s: seq<nat>, base: nat)
    requires base > 1 && |s| > 0 && s[|s| - 1] != 0
    ensures Val(s, base) >= Pow(base, |s| - 1)
  {
    var m := |s| - 1;
    var top := s[m];
    assert s == s[..m] + [top];
    ValAppend(s[..m], [top], base);
    assert Val([top], base) == top;
    MulAtLeast(Pow(base, m), top);
  }

  lemma MulAtLeast(a: nat, k: nat)
    requires k >= 1
    ensures a * k >= a
  {
    MulMonotone(a, 1, k);
  }

  /** The n low limbs of v: the limbs local::toArray writes for a value that fits. */
  function FromNat(v: nat, n: nat, base: nat): (r: seq<nat>)
    requires base > 1
    ensures |r| == n && Wf(r, base)
    decreases n
  {
    if n == 0 then [] else
      var low := v % base;
      assert low < base;
      [low] + FromNat(v / base, n - 1, base)
  }

  /** FromNat then Val gives back any value that fits in n limbs. */
  lemma {:induction false} ValFromNat(v: nat, n: nat, base: nat)
    requires base > 1 && v < Pow(base, n)
    ensures Val(FromNat(v, n, base), base) == v
    decreases n
  {
    if n > 0 {
      var q, low := v / base, v % base;
      var r := FromNat(v, n, base);
      assert r == [low] + FromNat(q, n - 1, base);
      assert r[1..] == FromNat(q, n - 1, base);
      DivBelow(v, base, Pow(base, n - 1));
      ValFromNat(q, n - 1, base);
      assert Val(r, base) == low + base * q;
      DivModIdentity(v, base);
    } else {
      assert v == 0;
    }
  }

  /** Val then FromNat gives back any well-formed limb sequence. */
  lemma {:induction false} FromNatVal(s: seq<nat>, base: nat)
    requires base > 1 && Wf(s, base)
    ensures FromNat(Val(s, base), |s|, base) == s
  {
    if |s| > 0 {
      var v := Val(s, base);
      DivModUnique(v, base, Val(s[1..], base), s[0]);
      FromNatVal(s[1..], base);
    }
  }

  /**
   The significant-limb count: the smallest i such that every limb at index
   i or above is zero.
   */
  function SigLen(s: seq<nat>): (i: nat)
    ensures i <= |s|
    ensures forall k :: i <= k < |s| ==> s[k] == 0
    ensures i > 0 ==> s[i - 1] != 0
  {
    if |s| == 0 then 0
    else if s[|s| - 1] == 0 then SigLen(s[..|s| - 1])
    else |s|
  }

  /** SigLen is the only count with its two defining properties. */
  lemma SigLenUnique(s: seq<nat>, i: nat)
    requires i <= |s| && (forall k :: i <= k < |s| ==> s[k] == 0)
    requires i > 0 ==> s[i - 1] != 0
    ensures SigLen(s) == i
  {
  }

  /** Dropping the leading zero limbs keeps the value. */
  lemma ValSigLen(s: seq<nat>, base: nat)
    requires base > 0
    ensures Val(s[..SigLen(s)], base) == Val(s, base)
  {
    ValTrailingZeros(s, SigLen(s), base);
  }

  /** local::clearArray(x, from, to): zero the limbs x[from..to). */
  method ClearArray(x: array<nat>, from: nat, to: nat)
    requires from <= to <= x.Length
    modifies x
    ensures x[..from] == old(x[..from]) && x[to..] == old(x[to..])
    ensures AllZero(x[from..to])
  {
    for i := from to to
      invariant x[..from] == old(x[..from]) && x[to..] == old(x[to..])
      invariant forall k :: from <= k < i ==> x[k] == 0
    {
      x[i] := 0;
    }
  }

  /** local::copyArray(y, x, n): y[0..n) := x[0..n); a no-op when y and x are the same buffer. */
  method CopyArray(y: array<nat>, x: array<nat>, n: nat)
    requires n <= y.Length && n <= x.Length
    modifies y
    ensures y[..n] == old(x[..n]) && y[n..] == old(y[n..])
  {
    for i := 0 to n
      invariant forall k :: 0 <= k < i ==> y[k] == old(x[k])
      invariant forall k :: i <= k < x.Length ==> x[k] == old(x[k])
      invariant y[n..] == old(y[n..])
    {
      y[i] := x[i];
    }
  }

  /** local::isZeroArray(x, n): every one of the n low limbs is zero. */
  function IsZeroArray(s: seq<nat>): (b: bool)
    ensures b <==> AllZero(s)
  {
    if |s| == 0 then true else s[0] == 0 && IsZeroArray(s[1..])
  }
}
