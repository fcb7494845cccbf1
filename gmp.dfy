/**
 The part of the GMP big-integer backend the field routines use, by its
 mathematical meaning. An mpz_t is a header over limb storage: _mp_alloc
 limbs are available at _mp_d, |_mp_size| of them are significant and the
 sign of _mp_size is the sign of the number. The routines point such
 headers at buffers they do not own, so every operation here writes its
 result into the destination's own storage and demands that the storage be
 large enough by GMP's own rule (GMP would otherwise reallocate storage it
 does not own). Only the significant limbs of a result are specified; the
 rest of the destination's allocation is left as the contracts say.
 */
module Gmp {
  import opened ModArith
  import opened Limbs

  /** An mpz_t header: _mp_alloc, _mp_size and _mp_d. */
  datatype Mpz = Mpz(alloc: nat, size: int, d: array<nat>)

  function Abs(v: int): nat
  {
    if v < 0 then -v else v
  }

  /** The number of significant limbs, |_mp_size|. */
  function Mag(z: Mpz): nat
  {
    Abs(z.size)
  }

  /**
   GMP's representation invariant: the significant limbs lie inside the
   allocation, they are machine words, and the top one is nonzero.
   */
  predicate Valid(z: Mpz, base: nat)
    reads z.d
  {
    Mag(z) <= z.alloc <= z.d.Length &&
    Wf(z.d[..Mag(z)], base) &&
    (Mag(z) > 0 ==> z.d[Mag(z) - 1] != 0)
  }

  /** The integer an mpz_t denotes. */
  function Value(z: Mpz, base: nat): int
    reads z.d
    requires Mag(z) <= z.d.Length
  {
    var v: int := Val(z.d[..Mag(z)], base);
    if z.size < 0 then -v else v
  }

  /** A valid mpz_t with m significant limbs lies in [base^(m-1), base^m) in magnitude. */
  lemma ValueBounds(z: Mpz, base: nat)
    requires base > 1 && Valid(z, base)
    ensures Abs(Value(z, base)) < Pow(base, Mag(z))
    ensures Mag(z) > 0 ==> Abs(Value(z, base)) >= Pow(base, Mag(z) - 1)
  {
    ValBound(z.d[..Mag(z)], base);
    if Mag(z) > 0 {
      ValLowerBound(z.d[..Mag(z)], base);
    }
  }

  /** A valid mpz_t whose magnitude is below base^k has at most k significant limbs. */
  lemma MagBelow(z: Mpz, base: nat, k: nat)
    requires base > 1 && Valid(z, base) && Abs(Value(z, base)) < Pow(base, k)
    ensures Mag(z) <= k
  {
    ValueBounds(z, base);
    if Mag(z) > k {
      PowMonotone(base, k, Mag(z) - 1);
      assert false;
    }
  }

  /** A valid mpz_t with a non-negative value has a non-negative size. */
  lemma NonNegSize(z: Mpz, base: nat)
    requires base > 1 && Valid(z, base) && Value(z, base) >= 0
    ensures z.size >= 0
  {
    ValueBounds(z, base);
    PowGrows(base, Mag(z));
  }

  /** mpz_sgn: read off the sign of _mp_size; for a valid mpz_t it is the sign of the value. */
  function Sgn(z: Mpz, base: nat): (s: int)
    reads z.d
    requires base > 1 && Valid(z, base)
    ensures s == -1 || s == 0 || s == 1
    ensures s < 0 <==> Value(z, base) < 0
    ensures s == 0 <==> Value(z, base) == 0
  {
    ValueBounds(z, base);
    PowGrows(base, Mag(z));
    if z.size < 0 then -1 else if z.size == 0 then 0 else 1
  }

  /**
   Writes v into the destination's storage as a normalised result: the
   significant limbs of |v| and the sign in the size. Limbs from the new size
   up to the allocation are not specified; storage past the allocation is
   untouched.
   */
  method Store(w: Mpz, v: int, base: nat) returns (r: Mpz)
    requires base > 1 && w.alloc <= w.d.Length
    requires Abs(v) < Pow(base, w.alloc)
    modifies w.d
    ensures r.alloc == w.alloc && r.d == w.d
    ensures Valid(r, base) && Value(r, base) == v
    ensures w.d[w.alloc..] == old(w.d[w.alloc..])
  {
    var limbs := FromNat(Abs(v), w.alloc, base);
    var n := SigLen(limbs);
    forall k | 0 <= k < n {
      w.d[k] := limbs[k];
    }
    assert w.d[..n] == limbs[..n];
    SignificantLimbs(Abs(v), w.alloc, base);
    var size: int := n;
    r := Mpz(w.alloc, if v < 0 then -size else size, w.d);
  }

  /** The significant limbs of the n-limb form of a value that fits are well formed and denote it. */
  lemma SignificantLimbs(v: nat, n: nat, base: nat)
    requires base > 1 && v < Pow(base, n)
    ensures Wf(FromNat(v, n, base)[..SigLen(FromNat(v, n, base))], base)
    ensures Val(FromNat(v, n, base)[..SigLen(FromNat(v, n, base))], base) == v
  {
    var limbs := FromNat(v, n, base);
    ValFromNat(v, n, base);
    ValSigLen(limbs, base);
  }

  lemma SumBound(a: int, b: int, base: nat, m: nat)
    requires base > 1 && Abs(a) < Pow(base, m) && Abs(b) < Pow(base, m)
    ensures Abs(a + b) < Pow(base, m + 1) && Abs(a - b) < Pow(base, m + 1)
  {
    assert Pow(base, m + 1) == base * Pow(base, m);
    assert base * Pow(base, m) >= 2 * Pow(base, m);
  }

  lemma AbsMul(a: int, b: int)
    ensures Abs(a * b) == Abs(a) * Abs(b)
  {
    if a < 0 && b < 0 {
      assert a * b == (-a) * (-b);
    } else if a < 0 {
      assert a * b == -((-a) * b);
    } else if b < 0 {
      assert a * b == -(a * (-b));
    }
  }

  lemma ProductBound(a: int, b: int, base: nat, m: nat, n: nat)
    requires base > 1 && Abs(a) < Pow(base, m) && Abs(b) < Pow(base, n)
    ensures Abs(a * b) < Pow(base, m + n)
  {
    PowAdd(base, m, n);
    AbsMul(a, b);
    MulStrict(Abs(a), Abs(b), Pow(base, m), Pow(base, n));
  }

  lemma MulStrict(x: nat, y: nat, px: nat, py: nat)
    requires x < px && y < py
    ensures x * y < px * py
  {
    MulMonotone(x, y, py);
    assert px * py - x * py == (px - x) * py;
  }

  /** Widening a magnitude bound from m to k >= m limbs. */
  lemma Widen(a: int, base: nat, m: nat, k: nat)
    requires base > 1 && m <= k && Abs(a) < Pow(base, m)
    ensures Abs(a) < Pow(base, k)
  {
    PowMonotone(base, m, k);
  }

  function Max(a: nat, b: nat): nat
  {
    if a < b then b else a
  }

  /** mpz_add(w, u, v): GMP needs max(|u|, |v|) + 1 limbs in w. */
  method Add(w: Mpz, u: Mpz, v: Mpz, base: nat) returns (r: Mpz)
    requires base > 1 && Valid(u, base) && Valid(v, base)
    requires Max(Mag(u), Mag(v)) + 1 <= w.alloc <= w.d.Length
    modifies w.d
    ensures r.alloc == w.alloc && r.d == w.d && Valid(r, base)
    ensures Value(r, base) == old(Value(u, base)) + old(Value(v, base))
    ensures Mag(r) <= Max(Mag(u), Mag(v)) + 1
    ensures w.d[w.alloc..] == old(w.d[w.alloc..])
  {
    var a, b := Value(u, base), Value(v, base);
    var m := Max(Mag(u), Mag(v));
    ValueBounds(u, base);
    ValueBounds(v, base);
    Widen(a, base, Mag(u), m);
    Widen(b, base, Mag(v), m);
    SumBound(a, b, base, m);
    Widen(a + b, base, m + 1, w.alloc);
    r := Store(w, a + b, base);
    MagBelow(r, base, m + 1);
  }

  /** mpz_sub(w, u, v): GMP needs max(|u|, |v|) + 1 limbs in w. */
  method Sub(w: Mpz, u: Mpz, v: Mpz, base: nat) returns (r: Mpz)
    requires base > 1 && Valid(u, base) && Valid(v, base)
    requires Max(Mag(u), Mag(v)) + 1 <= w.alloc <= w.d.Length
    modifies w.d
    ensures r.alloc == w.alloc && r.d == w.d && Valid(r, base)
    ensures Value(r, base) == old(Value(u, base)) - old(Value(v, base))
    ensures Mag(r) <= Max(Mag(u), Mag(v)) + 1
    ensures w.d[w.alloc..] == old(w.d[w.alloc..])
  {
    var a, b := Value(u, base), Value(v, base);
    var m := Max(Mag(u), Mag(v));
    ValueBounds(u, base);
    ValueBounds(v, base);
    Widen(a, base, Mag(u), m);
    Widen(b, base, Mag(v), m);
    SumBound(a, b, base, m);
    Widen(a - b, base, m + 1, w.alloc);
    r := Store(w, a - b, base);
    MagBelow(r, base, m + 1);
  }

  /** mpz_mul(w, u, v): GMP needs |u| + |v| limbs in w. */
  method Mul(w: Mpz, u: Mpz, v: Mpz, base: nat) returns (r: Mpz)
    requires base > 1 && Valid(u, base) && Valid(v, base)
    requires Mag(u) + Mag(v) <= w.alloc <= w.d.Length
    modifies w.d
    ensures r.alloc == w.alloc && r.d == w.d && Valid(r, base)
    ensures Value(r, base) == old(Value(u, base)) * old(Value(v, base))
    ensures w.d[w.alloc..] == old(w.d[w.alloc..])
  {
    var a, b := Value(u, base), Value(v, base);
    ValueBounds(u, base);
    ValueBounds(v, base);
    ProductBound(a, b, base, Mag(u), Mag(v));
    Widen(a * b, base, Mag(u) + Mag(v), w.alloc);
    r := Store(w, a * b, base);
  }

  /**
   mpz_mod(w, u, m): the remainder of a non-negative u modulo a nonzero m
   (the sign of m is ignored); GMP needs |m| limbs in w. A negative u would
   need one limb more for GMP's final correction, so it is not admitted.
   */
  method Mod(w: Mpz, u: Mpz, m: Mpz, base: nat) returns (r: Mpz)
    requires base > 1 && Valid(u, base) && Valid(m, base)
    requires Value(u, base) >= 0 && Value(m, base) != 0
    requires Mag(m) <= w.alloc <= w.d.Length
    modifies w.d
    ensures r.alloc == w.alloc && r.d == w.d && Valid(r, base)
    ensures Value(r, base) == old(Value(u, base)) % old(Abs(Value(m, base)))
    ensures 0 <= Value(r, base) < old(Abs(Value(m, base)))
    ensures w.d[w.alloc..] == old(w.d[w.alloc..])
  {
    var a, q := Value(u, base), Abs(Value(m, base));
    ValueBounds(m, base);
    Widen(a % q, base, Mag(m), w.alloc);
    r := Store(w, a % q, base);
  }

  /**
   mpz_invert(w, u, m) for a non-negative u and a positive m coprime to it:
   the inverse of u modulo m, in [0, m). The destination stands for an
   mpz_class, whose storage the library manages; it is given |m| limbs.
   */
  method Invert(w: Mpz, u: Mpz, m: Mpz, base: nat) returns (r: Mpz)
    requires base > 1 && Valid(u, base) && Valid(m, base)
    requires Value(u, base) >= 0 && Value(m, base) > 0
    requires Gcd(Value(u, base), Value(m, base)) == 1
    requires Mag(m) <= w.alloc <= w.d.Length
    modifies w.d
    ensures r.alloc == w.alloc && r.d == w.d && Valid(r, base)
    ensures Value(r, base) == Inverse(old(Value(u, base)), old(Value(m, base)))
    ensures w.d[w.alloc..] == old(w.d[w.alloc..])
  {
    var inv := Inverse(Value(u, base), Value(m, base));
    ValueBounds(m, base);
    Widen(inv, base, Mag(m), w.alloc);
    r := Store(w, inv, base);
  }

  /**
   local::toArray(y, n, z): copy the significant limbs of a non-negative z
   into y and zero-fill y up to n limbs. z must fit in n limbs. z's storage
   may be y itself.
   */
  method ToArray(y: array<nat>, n: nat, z: Mpz, base: nat)
    requires base > 1 && Valid(z, base) && n <= y.Length
    requires 0 <= Value(z, base) < Pow(base, n)
    modifies y
    ensures Wf(y[..n], base) && Val(y[..n], base) == old(Value(z, base))
    ensures y[n..] == old(y[n..])
  {
    MagBelow(z, base, n);
    NonNegSize(z, base);
    CopyArray(y, z.d, z.size);
    ClearArray(y, z.size, n);
    assert y[..n][..z.size] == y[..z.size];
    ZeroExtend(y[..n], z.size, base);
  }
}
