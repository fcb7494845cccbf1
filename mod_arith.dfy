/**
 Integer facts the field routines rest on: uniqueness of Euclidean division,
 the greatest common divisor by Euclid's algorithm, its Bezout coefficients
 (extended Euclid) and the modular inverse they give, which is what the
 big-integer backend's invert operation returns.
 */
module ModArith {

  /** Euclidean division: quotient times divisor plus remainder, with the remainder in [0, m). */
  lemma DivModIdentity(a: int, m: int)
    requires m > 0
    ensures a == m * (a / m) + a % m && 0 <= a % m < m
  {
  }

  /** Euclidean division by a positive modulus is unique. */
  lemma DivModUnique(a: int, m: int, q: int, r: int)
    requires m > 0 && a == q * m + r && 0 <= r < m
    ensures a / m == q && a % m == r
  {
    var q0, r0 := a / m, a % m;
    assert a == q0 * m + r0 && 0 <= r0 < m;
    assert (q - q0) * m == r0 - r;
    if q - q0 >= 1 {
      assert false;
    } else if q - q0 <= -1 {
      assert false;
    }
  }

  /** Adding a multiple of the modulus does not change the residue. */
  lemma ModAddMultiple(a: int, k: int, m: int)
    requires m > 0
    ensures (a + k * m) % m == a % m
  {
    DivModUnique(a + k * m, m, a / m + k, a % m);
  }

  /** Greatest common divisor by Euclid's algorithm; Gcd(a, 0) == a. */
  function Gcd(a: nat, b: nat): nat
    decreases b
  {
    if b == 0 then a else Gcd(b, a % b)
  }

  ghost predicate Divides(d: int, a: int)
  {
    exists k: int :: a == k * d
  }

  /**
   Extended Euclid: coefficients (s, t) with s * a + t * b == Gcd(a, b).
   */
  function ExtGcd(a: nat, b: nat): (st: (int, int))
    decreases b
    ensures st.0 * a + st.1 * b == Gcd(a, b)
  {
    if b == 0 then (1, 0)
    else
      var st' := ExtGcd(b, a % b);
      var q := a / b;
      assert a % b == a - q * b;
      assert st'.0 * b + st'.1 * (a - q * b) == Gcd(a, b);
      assert st'.1 * (a - q * b) == st'.1 * a - (st'.1 * q) * b;
      (st'.1, st'.0 - st'.1 * q)
  }

  /** Gcd(a, b) divides both of its arguments. */
  lemma {:induction false} GcdDivides(a: nat, b: nat)
    ensures Divides(Gcd(a, b), a) && Divides(Gcd(a, b), b)
    decreases b
  {
    var g := Gcd(a, b);
    if b == 0 {
      assert a == 1 * g && b == 0 * g;
    } else {
      GcdDivides(b, a % b);
      var k1: int :| b == k1 * g;
      var k2: int :| a % b == k2 * g;
      var q := a / b;
      assert a == q * b + a % b;
      assert a == (q * k1 + k2) * g by {
        calc {
          a;
          q * b + a % b;
          q * (k1 * g) + k2 * g;
          (q * k1 + k2) * g;
        }
      }
    }
  }

  /** Every common divisor of a and b divides Gcd(a, b): Gcd is the greatest one. */
  lemma GcdIsGreatest(a: nat, b: nat, d: int)
    requires Divides(d, a) && Divides(d, b)
    ensures Divides(d, Gcd(a, b))
  {
    var st := ExtGcd(a, b);
    var ka: int :| a == ka * d;
    var kb: int :| b == kb * d;
    Factor(st.0, st.1, ka, kb, d);
    assert Gcd(a, b) == (st.0 * ka + st.1 * kb) * d;
  }

  lemma Factor(s: int, t: int, ka: int, kb: int, d: int)
    ensures s * (ka * d) + t * (kb * d) == (s * ka + t * kb) * d
  {
  }

  /**
   The inverse of x modulo p, as the backend's invert returns it: the residue
   in [0, p) whose product with x is 1 modulo p.
   */
  function Inverse(x: nat, p: nat): (r: nat)
    requires p > 0 && Gcd(x, p) == 1
    ensures r < p
    ensures (r * x) % p == 1 % p
  {
    var st := ExtGcd(x, p);
    var r := st.0 % p;
    BezoutResidue(st.0, st.1, x, p);
    r
  }

  /** From s * x + t * p == 1, the residue of s times x is 1 modulo p. */
  lemma BezoutResidue(s: int, t: int, x: int, p: int)
    requires p > 0 && s * x + t * p == 1
    ensures ((s % p) * x) % p == 1 % p
  {
    var q, r := s / p, s % p;
    assert s == q * p + r;
    assert r * x == s * x - (q * x) * p;
    assert r * x == 1 + (-t - q * x) * p;
    ModAddMultiple(1, -t - q * x, p);
  }

  lemma SubMul(a: int, b: int, x: int)
    ensures (a - b) * x == a * x - b * x
  {
  }

  /** A multiple of p that lies strictly between -p and p is 0. */
  lemma SmallMultipleIsZero(d: int, k: int, p: int)
    requires p > 0 && d == k * p && -p < d < p
    ensures d == 0
  {
    if k >= 1 {
      assert false;
    } else if k <= -1 {
      assert false;
    }
  }

  /** Two numbers with the same residue differ by a multiple of the modulus. */
  lemma SameResidue(a: int, b: int, p: int)
    requires p > 0 && a % p == b % p
    ensures a - b == (a / p - b / p) * p
  {
    assert a == (a / p) * p + a % p;
    assert b == (b / p) * p + b % p;
  }

  /** If s is an inverse of x modulo p and p divides d * x, then p divides d. */
  lemma CancelByBezout(d: int, x: int, s: int, t: int, p: int, k: int)
    requires s * x + t * p == 1 && d * x == k * p
    ensures d == (s * k + d * t) * p
  {
    calc {
      d;
      d * (s * x + t * p);
      s * (d * x) + (d * t) * p;
      s * (k * p) + (d * t) * p;
      (s * k + d * t) * p;
    }
  }

  /**
   The inverse is unique: any residue in [0, p) whose product with x is 1
   modulo p is Inverse(x, p).
   */
  lemma InverseUnique(x: nat, p: nat, r': nat)
    requires p > 0 && Gcd(x, p) == 1
    requires r' < p && (r' * x) % p == 1 % p
    ensures r' == Inverse(x, p)
  {
    var r := Inverse(x, p);
    var st := ExtGcd(x, p);
    SameResidue(r * x, r' * x, p);
    var k := (r * x) / p - (r' * x) / p;
    var d := r - r';
    SubMul(r, r', x);
    CancelByBezout(d, x, st.0, st.1, p, k);
    SmallMultipleIsZero(d, st.0 * k + d * st.1, p);
  }
}
