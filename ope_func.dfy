/**
 OpeFunc<bitN>: the generic routine family for one bit-length class. A field
 element is a buffer of N == ceil(bitN / UnitBits) limbs, least significant
 first. The arithmetic routines (add, sub, mulPre, mod, inv, and neg when
 its input is nonzero) point mpz_t headers at the caller's buffers
 (set_mpz_t, set_zero), let the backend compute, and write their result
 into a caller-owned buffer in place. clear, copy and isZero work on the
 limbs directly; isZero only reads them and is a function. Outputs may
 alias inputs: results are stated in terms of the inputs' values before
 the call.
 */
module OpeFunc {
  import opened ModArith
  import opened Limbs
  import Gmp
  import FpBase

  /** The instance OpeFunc<bitN> on one platform. */
  datatype Family = Family(pl: Platform, bitN: nat)
  {
    /** N == ceil(bitN / UnitBits): the limbs of one field element. */
    function N(): nat
    {
      (bitN + UnitBits(pl) - 1) / UnitBits(pl)
    }

    /** The limb radix. */
    function B(): (b: nat)
      ensures b > 1
    {
      Base(pl)
    }
  }

  /** N is the least number of limbs that holds bitN bits. */
  lemma NIsCeiling(f: Family)
    ensures f.N() * UnitBits(f.pl) >= f.bitN
    ensures f.N() > 0 ==> (f.N() - 1) * UnitBits(f.pl) < f.bitN
  {
    var w := UnitBits(f.pl);
    DivModUnique(f.bitN + w - 1, w, f.N(), (f.bitN + w - 1) % w);
  }

  lemma {:induction false} PowOfPow(b: nat, w: nat, n: nat)
    ensures Pow(Pow(b, w), n) == Pow(b, w * n)
  {
    if n > 0 {
      PowOfPow(b, w, n - 1);
      PowAdd(b, w, w * (n - 1));
      assert w * n == w + w * (n - 1);
    }
  }

  /** N limbs suffice: every bitN-bit value fits in one field element. */
  lemma LimbsSuffice(f: Family)
    ensures Pow(2, f.bitN) <= Pow(f.B(), f.N())
  {
    NIsCeiling(f);
    PowOfPow(2, UnitBits(f.pl), f.N());
    PowMonotone(2, f.bitN, UnitBits(f.pl) * f.N());
  }

  /** A buffer of at least n limbs whose n low limbs are machine words. */
  predicate Elem(f: Family, a: array<nat>, n: nat)
    reads a
  {
    n <= a.Length && Wf(a[..n], f.B())
  }

  /** The value of the n low limbs of a. */
  function V(f: Family, a: array<nat>, n: nat): nat
    reads a
    requires n <= a.Length
  {
    Val(a[..n], f.B())
  }

  /**
   set_mpz_t(z, p, n): a header over the n limbs at p, with the size found by
   scanning down from the top past zero limbs.
   */
  method SetMpz(f: Family, p: array<nat>, n: nat) returns (z: Gmp.Mpz)
    requires n <= p.Length
    ensures z.alloc == n && z.d == p && 0 <= z.size <= n
    ensures z.size == SigLen(p[..n])
    ensures Gmp.Value(z, f.B()) == V(f, p, n)
    ensures Elem(f, p, n) ==> Gmp.Valid(z, f.B())
  {
    var i := n;
    while i > 0 && p[i - 1] == 0
      invariant 0 <= i <= n
      invariant forall k :: i <= k < n ==> p[k] == 0
    {
      i := i - 1;
    }
    z := Gmp.Mpz(n, i, p);
    assert p[..n][..i] == p[..i];
    SigLenUnique(p[..n], i);
    ValSigLen(p[..n], f.B());
  }

  /** set_zero(z, p, n): a header for the number 0 with n limbs of storage at p. */
  method SetZero(p: array<nat>, n: nat) returns (z: Gmp.Mpz)
    requires n <= p.Length
    ensures z.alloc == n && z.d == p
    ensures forall base :: Gmp.Valid(z, base) && Gmp.Value(z, base) == 0
  {
    z := Gmp.Mpz(n, 0, p);
  }

  /** isZeroC: whether the element is zero, limb by limb. */
  function IsZero(f: Family, x: array<nat>): (b: bool)
    reads x
    requires f.N() <= x.Length
    ensures b <==> AllZero(x[..f.N()])
    ensures b <==> V(f, x, f.N()) == 0
  {
    ValZeroIff(x[..f.N()], f.B());
    IsZeroArray(x[..f.N()])
  }

  /** clearC: zero the N limbs of x. */
  method Clear(f: Family, x: array<nat>)
    requires f.N() <= x.Length
    modifies x
    ensures AllZero(x[..f.N()]) && IsZero(f, x)
    ensures x[f.N()..] == old(x[f.N()..])
  {
    ClearArray(x, 0, f.N());
  }

  /** copyC: y gets the N limbs of x; nothing changes when y is x. */
  method Copy(f: Family, y: array<nat>, x: array<nat>)
    requires f.N() <= y.Length && f.N() <= x.Length
    modifies y
    ensures y[..f.N()] == old(x[..f.N()])
    ensures y[f.N()..] == old(y[f.N()..])
  {
    CopyArray(y, x, f.N());
  }

  /** The value addC leaves: the sum, less p once if it reaches p. */
  function AddValue(x: nat, y: nat, p: nat): nat
  {
    if x + y >= p then x + y - p else x + y
  }

  /** On reduced inputs one conditional subtraction is reduction modulo p. */
  lemma AddValueIsMod(x: nat, y: nat, p: nat)
    requires x < p && y < p
    ensures AddValue(x, y, p) == (x + y) % p
    ensures AddValue(x, y, p) < p
  {
    if x + y >= p {
      DivModUnique(x + y, p, 1, x + y - p);
    } else {
      DivModUnique(x + y, p, 0, x + y);
    }
  }

  /** The value addC leaves fits wherever p and the excess of the sum over p fit. */
  lemma AddValueFits(x: nat, y: nat, p: nat, bound: nat)
    requires p < bound && x + y < p + bound
    ensures AddValue(x, y, p) < bound
  {
  }

  /** The value subC leaves: the difference, plus p once if it is negative. */
  function SubValue(x: nat, y: nat, p: nat): int
  {
    if x - y < 0 then x - y + p else x - y
  }

  /** On reduced inputs one conditional addition is reduction modulo p. */
  lemma SubValueIsMod(x: nat, y: nat, p: nat)
    requires x < p && y < p
    ensures SubValue(x, y, p) == (x - y) % p
    ensures 0 <= SubValue(x, y, p) < p
  {
    if x - y < 0 {
      DivModUnique(x - y, p, -1, x - y + p);
    } else {
      DivModUnique(x - y, p, 0, x - y);
    }
  }

  /** The value subC leaves fits wherever x and p fit, when y does not exceed x + p. */
  lemma SubValueFits(x: nat, y: nat, p: nat, bound: nat)
    requires x < bound && p < bound && y <= x + p
    ensures 0 <= SubValue(x, y, p) < bound
  {
  }

  /** The value negC leaves: 0 for 0, otherwise subC(p, x). */
  function NegValue(x: nat, p: nat): int
  {
    if x == 0 then 0 else SubValue(p, x, p)
  }

  /** On a reduced input negC is negation modulo p. */
  lemma NegValueIsMod(x: nat, p: nat)
    requires x < p
    ensures NegValue(x, p) == (-(x as int)) % p
    ensures 0 <= NegValue(x, p) < p
  {
    if x == 0 {
      assert (-x) % p == 0;
    } else {
      DivModUnique(-(x as int), p, -1, p - x);
    }
  }

  /** For a nonzero x up to p, negC leaves p - x. */
  lemma NegValueIsDifference(x: nat, p: nat)
    requires 0 < x <= p
    ensures NegValue(x, p) == p - x
  {
  }

  /** negC undoes itself on reduced inputs. */
  lemma NegInvolutive(x: nat, p: nat)
    requires x < p
    ensures 0 <= NegValue(x, p) && NegValue(NegValue(x, p) as nat, p) == x
  {
    NegValueIsMod(x, p);
  }

  /**
   The scratch part of addC: the sum in a fresh N + 2 limb buffer, less p
   once if it reaches p. The second GMP step subtracts from a sum of up to
   N + 1 limbs, and GMP needs one limb more than its larger operand: hence
   N + 2 and not N + 1.
   */
  method AddScratch(f: Family, x: array<nat>, y: array<nat>, p: array<nat>) returns (mz: Gmp.Mpz)
    requires Elem(f, x, f.N()) && Elem(f, y, f.N()) && Elem(f, p, f.N())
    requires V(f, x, f.N()) + V(f, y, f.N()) < V(f, p, f.N()) + Pow(f.B(), f.N())
    ensures fresh(mz.d) && Gmp.Valid(mz, f.B())
    ensures Gmp.Value(mz, f.B()) == AddValue(old(V(f, x, f.N())), old(V(f, y, f.N())), old(V(f, p, f.N())))
    ensures 0 <= Gmp.Value(mz, f.B()) < Pow(f.B(), f.N())
  {
    var n, b := f.N(), f.B();
    ghost var vx, vy, vp := V(f, x, n), V(f, y, n), V(f, p, n);
    ValBound(p[..n], b);
    AddValueFits(vx, vy, vp, Pow(b, n));
    var ret := new nat[n + 2];
    mz := SetZero(ret, n + 2);
    var mx := SetMpz(f, x, n);
    var my := SetMpz(f, y, n);
    var mp := SetMpz(f, p, n);
    mz := Gmp.Add(mz, mx, my, b);
    assert Gmp.Valid(mp, b) && Gmp.Value(mp, b) == vp;
    mz := SubIfAtLeast(mz, mp, b);
  }

  /** The comparison of the sum with p and the in-place subtraction that follows it when the sum is at least p. */
  method SubIfAtLeast(mz: Gmp.Mpz, mp: Gmp.Mpz, b: nat) returns (r: Gmp.Mpz)
    requires b > 1 && Gmp.Valid(mz, b) && Gmp.Valid(mp, b) && mz.d != mp.d
    requires Gmp.Max(Gmp.Mag(mz), Gmp.Mag(mp)) + 1 <= mz.alloc
    modifies mz.d
    ensures r.d == mz.d && Gmp.Valid(r, b)
    ensures Gmp.Value(r, b) ==
              if old(Gmp.Value(mz, b)) >= Gmp.Value(mp, b) then old(Gmp.Value(mz, b)) - Gmp.Value(mp, b)
              else old(Gmp.Value(mz, b))
  {
    r := mz;
    if Gmp.Value(mz, b) >= Gmp.Value(mp, b) {
      r := Gmp.Sub(mz, mz, mp, b);
    }
  }

  /**
   addC(z, x, y, p): the scratch sum, less p once if it reaches p, copied
   into z. The result must fit in N limbs.
   */
  method Add(f: Family, z: array<nat>, x: array<nat>, y: array<nat>, p: array<nat>)
    requires Elem(f, x, f.N()) && Elem(f, y, f.N()) && Elem(f, p, f.N()) && f.N() <= z.Length
    requires V(f, x, f.N()) + V(f, y, f.N()) < V(f, p, f.N()) + Pow(f.B(), f.N())
    modifies z
    ensures Elem(f, z, f.N())
    ensures V(f, z, f.N()) == AddValue(old(V(f, x, f.N())), old(V(f, y, f.N())), old(V(f, p, f.N())))
    ensures z[f.N()..] == old(z[f.N()..])
  {
    var mz := AddScratch(f, x, y, p);
    Gmp.ToArray(z, f.N(), mz, f.B());
  }

  /**
   The scratch part of subC: the difference in a fresh N + 1 limb buffer,
   plus p once if it is negative.
   */
  method SubScratch(f: Family, x: array<nat>, y: array<nat>, p: array<nat>) returns (mz: Gmp.Mpz)
    requires Elem(f, x, f.N()) && Elem(f, y, f.N()) && Elem(f, p, f.N())
    requires V(f, y, f.N()) <= V(f, x, f.N()) + V(f, p, f.N())
    ensures fresh(mz.d) && Gmp.Valid(mz, f.B())
    ensures Gmp.Value(mz, f.B()) == SubValue(old(V(f, x, f.N())), old(V(f, y, f.N())), old(V(f, p, f.N())))
    ensures 0 <= Gmp.Value(mz, f.B()) < Pow(f.B(), f.N())
  {
    var n, b := f.N(), f.B();
    ghost var vx, vy, vp := V(f, x, n), V(f, y, n), V(f, p, n);
    ValBound(x[..n], b);
    ValBound(y[..n], b);
    ValBound(p[..n], b);
    SubValueFits(vx, vy, vp, Pow(b, n));
    var ret := new nat[n + 1];
    mz := SetZero(ret, n + 1);
    var mx := SetMpz(f, x, n);
    var my := SetMpz(f, y, n);
    mz := Gmp.Sub(mz, mx, my, b);
    if Gmp.Sgn(mz, b) < 0 {
      var mp := SetMpz(f, p, n);
      Gmp.MagBelow(mz, b, n);
      mz := Gmp.Add(mz, mz, mp, b);
    }
  }

  /**
   subC(z, x, y, p): the scratch difference, plus p once if it is negative,
   copied into z. The result must not be negative.
   */
  method Sub(f: Family, z: array<nat>, x: array<nat>, y: array<nat>, p: array<nat>)
    requires Elem(f, x, f.N()) && Elem(f, y, f.N()) && Elem(f, p, f.N()) && f.N() <= z.Length
    requires V(f, y, f.N()) <= V(f, x, f.N()) + V(f, p, f.N())
    modifies z
    ensures Elem(f, z, f.N())
    ensures V(f, z, f.N()) == SubValue(old(V(f, x, f.N())), old(V(f, y, f.N())), old(V(f, p, f.N())))
    ensures z[f.N()..] == old(z[f.N()..])
  {
    var mz := SubScratch(f, x, y, p);
    Gmp.ToArray(z, f.N(), mz, f.B());
  }

  /**
   mulPreC(z, x, y): the full 2N-limb product, written through a header over
   z itself. The product always fits in 2N limbs.
   */
  method MulPre(f: Family, z: array<nat>, x: array<nat>, y: array<nat>)
    requires Elem(f, x, f.N()) && Elem(f, y, f.N()) && f.N() * 2 <= z.Length
    modifies z
    ensures Elem(f, z, f.N() * 2)
    ensures V(f, z, f.N() * 2) == old(V(f, x, f.N())) * old(V(f, y, f.N()))
    ensures z[f.N() * 2..] == old(z[f.N() * 2..])
  {
    var n, b := f.N(), f.B();
    ghost var vx, vy := V(f, x, n), V(f, y, n);
    ValBound(x[..n], b);
    ValBound(y[..n], b);
    ProductFits(vx, vy, b, n);
    var mz := SetZero(z, n * 2);
    var mx := SetMpz(f, x, n);
    var my := SetMpz(f, y, n);
    ghost var prod := vx * vy;
    mz := Gmp.Mul(mz, mx, my, b);
    assert Gmp.Value(mz, b) == prod;
    Gmp.ToArray(z, n * 2, mz, b);
  }

  /** The product of two n-limb values fits in 2n limbs. */
  lemma ProductFits(x: nat, y: nat, b: nat, n: nat)
    requires b > 1 && x < Pow(b, n) && y < Pow(b, n)
    ensures 0 <= x * y < Pow(b, n * 2)
  {
    Gmp.ProductBound(x, y, b, n, n);
    assert n + n == n * 2;
  }

  /**
   modC(y, x, p): the 2N-limb x reduced modulo p into the N limbs of y; the
   backend writes only the significant limbs, and the rest of y up to N is
   cleared.
   */
  method Mod(f: Family, y: array<nat>, x: array<nat>, p: array<nat>)
    requires Elem(f, x, f.N() * 2) && Elem(f, p, f.N()) && f.N() <= y.Length
    requires V(f, p, f.N()) > 0
    modifies y
    ensures Elem(f, y, f.N())
    ensures V(f, y, f.N()) == old(V(f, x, f.N() * 2)) % old(V(f, p, f.N()))
    ensures V(f, y, f.N()) < old(V(f, p, f.N()))
    ensures y[f.N()..] == old(y[f.N()..])
  {
    var n, b := f.N(), f.B();
    ghost var vx, vp := V(f, x, n * 2), V(f, p, n);
    var mx := SetMpz(f, x, n * 2);
    var my := SetMpz(f, y, n);
    var mp := SetMpz(f, p, n);
    ghost var rem := vx % vp;
    my := Gmp.Mod(my, mx, mp, b);
    assert Gmp.Value(my, b) == rem;
    Gmp.NonNegSize(my, b);
    ClearArray(y, my.size, n);
    assert y[..n][..my.size] == y[..my.size];
    ZeroExtend(y[..n], my.size, b);
  }

  /**
   invOp(y, x, op): the inverse of x modulo op.p, computed into an mpz_class
   (storage the library manages) and copied into y. The backend's failure
   result is not looked at, so x must be invertible modulo p.
   */
  method Inv(f: Family, y: array<nat>, x: array<nat>, op: FpBase.Op)
    requires Elem(f, x, f.N()) && Elem(f, op.p, f.N()) && f.N() <= y.Length
    requires V(f, op.p, f.N()) > 0 && Gcd(V(f, x, f.N()), V(f, op.p, f.N())) == 1
    modifies y
    ensures Elem(f, y, f.N())
    ensures V(f, y, f.N()) == Inverse(old(V(f, x, f.N())), old(V(f, op.p, f.N())))
    ensures V(f, y, f.N()) < old(V(f, op.p, f.N()))
    ensures (V(f, y, f.N()) * old(V(f, x, f.N()))) % old(V(f, op.p, f.N())) == 1 % old(V(f, op.p, f.N()))
    ensures y[f.N()..] == old(y[f.N()..])
  {
    var n, b := f.N(), f.B();
    var storage := new nat[n];
    var my := Gmp.Mpz(n, 0, storage);
    var mx := SetMpz(f, x, n);
    var mp := SetMpz(f, op.p, n);
    ValBound(op.p[..n], b);
    my := Gmp.Invert(my, mx, mp, b);
    Gmp.ToArray(y, n, my, b);
  }

  /**
   negC(y, x, p): y := 0 when x is zero (and nothing is written when y is x),
   otherwise y := subC(p, x).
   */
  method Neg(f: Family, y: array<nat>, x: array<nat>, p: array<nat>)
    requires Elem(f, x, f.N()) && Elem(f, p, f.N()) && f.N() <= y.Length
    requires V(f, x, f.N()) <= 2 * V(f, p, f.N())
    modifies y
    ensures Elem(f, y, f.N())
    ensures V(f, y, f.N()) == NegValue(old(V(f, x, f.N())), old(V(f, p, f.N())))
    ensures old(V(f, x, f.N())) < old(V(f, p, f.N())) ==>
              V(f, y, f.N()) == (-(old(V(f, x, f.N())) as int)) % old(V(f, p, f.N()))
    ensures old(IsZero(f, x)) ==> AllZero(y[..f.N()])
    ensures old(IsZero(f, x)) && y == x ==> y[..] == old(y[..])
    ensures y[f.N()..] == old(y[f.N()..])
  {
    ghost var vx, vp := V(f, x, f.N()), V(f, p, f.N());
    if vx < vp {
      NegValueIsMod(vx, vp);
    }
    if IsZero(f, x) {
      if x != y {
        Clear(f, y);
        ValZeroIff(y[..f.N()], f.B());
      }
      return;
    }
    Sub(f, y, p, x, p);
  }
}
