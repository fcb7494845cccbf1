# mcl fixed-width field routines, modelled in Dafny

This project models the generic prime-field layer of the mcl pairing library (`src/fp.cpp`).

A field element is a little-endian buffer of `N = ceil(bitN / UnitBits)` machine words ("limbs"). `UnitBits` is 32 or 64, depending on the platform. The template `OpeFunc<bitN>` supplies the primitive routines on such buffers: clear, copy, isZero, add, sub, neg, the double-width product mulPre, the 2N-to-N reduction mod, and the inverse. The arithmetic routines (add, sub, mulPre, mod, the inverse, and neg on a nonzero input) do the same three things:

- they point GMP `mpz_t` headers at the caller's buffers (`set_mpz_t`, `set_zero`);
- they compute with GMP;
- they write the result back into a caller-owned buffer in place.

clear and copy write the limbs directly, neg of zero clears its output, and isZero only reads the limbs.

`setOp` picks the smallest instance size on the platform's ladder that holds the modulus bit length. It then binds that instance's routines into the operation table `Op`.

The model is imperative, as the source is:

- Every routine that writes a buffer is a `method` over `array<nat>` buffers. Its contract states the new buffer contents through `Val`, the number a limb sequence denotes. isZero, which only reads, is the function `OpeFunc.IsZero`.
- Outputs may alias inputs, so results are stated in terms of the inputs' values before the call.
- The GMP backend is modelled by what each call means on values. On top of that, each call requires GMP's own rule for how much storage the destination needs. That rule is why `addC` takes an `N + 2` limb scratch.
- Each arithmetic routine is proved equal to a value-level function: `AddValue`, `SubValue`, `NegValue`, the product `x * y`, `%`, or `Inverse`. Lemmas then prove what those functions mean modulo `p`.
- `setOp` is proved against `Select`, the first rung of the ladder that holds `bitLen` bits. The `Op` record is a class whose fields it updates.

Modules, in dependency order:

- `ModArith`: Euclidean division, gcd, extended Euclid and the modular inverse.
- `Limbs`: limb sequences, `Val`, the significant-limb count, and the `local::` array helpers.
- `Gmp`: `mpz_t` headers and the backend calls.
- `FpBase`: the `Op` table.
- `OpeFunc`: the routine family.
- `Dispatch`: `setOp`.

## Model

| member | source | states |
|---|---|---|
| OpeFunc.NIsCeiling | src/fp.cpp:29 | about `OpeFunc.Family.N`, the constant N: N words hold bitN bits, and N - 1 words do not: N is the ceiling of bitN / UnitBits |
| OpeFunc.LimbsSuffice | src/fp.cpp:29 | every bitN-bit value fits in one N-limb element: 2^bitN <= base^N |
| Limbs.SigLen | src/fp.cpp:30-39 | the significant-limb count i <= len s: every limb at index i or above is zero, and limb i-1 is nonzero when i > 0 |
| Limbs.SigLenUnique | src/fp.cpp:30-39 | any count with those two properties is SigLen, so the count set_mpz_t finds is the least one |
| Limbs.ValSigLen | src/fp.cpp:30-39 | dropping the zero limbs above the significant-limb count keeps the value |
| OpeFunc.SetMpz | src/fp.cpp:30-39 | the downward scan gives a header with alloc n, data p and size SigLen(p[0..n)). The header denotes Val(p[0..n)) and is a valid mpz_t when the limbs are words |
| OpeFunc.SetZero | src/fp.cpp:40-45 | a header with alloc n and size 0 over p; it is valid and denotes 0 |
| Limbs.ClearArray | src/fp.cpp:46-49 | limbs [from, to) become zero and every other limb is unchanged |
| OpeFunc.Clear | src/fp.cpp:46-49 | all N limbs become zero, isZeroC then holds, and limbs past N are unchanged |
| Limbs.CopyArray | src/fp.cpp:50-53 | y[0..n) gets the old x[0..n), also when y is x; y past n is unchanged |
| OpeFunc.Copy | src/fp.cpp:50-53 | y[i] == old x[i] for every i < N; y past N is unchanged |
| Limbs.IsZeroArray | src/fp.cpp:111-114 | true exactly when every limb is zero |
| Limbs.ValZeroIff | src/fp.cpp:111-114 | a buffer denotes 0 exactly when all its limbs are 0 |
| OpeFunc.IsZero | src/fp.cpp:111-114 | true iff all N limbs are zero, iff the element's value is 0 |
| Gmp.Sgn | src/fp.cpp:76 | mpz_sgn is -1, 0 or 1; it is negative iff the value is, and zero iff the value is |
| Gmp.Add | src/fp.cpp:62 | mpz_add (called by addC here and by subC at src/fp.cpp:79) with max(size u, size v)+1 destination limbs: a valid result equal to u + v, of at most max(size u, size v)+1 limbs; storage past the allocation is untouched |
| Gmp.Sub | src/fp.cpp:64 | mpz_sub (called by addC here and by subC at src/fp.cpp:75) with max(size u, size v)+1 destination limbs: a valid result equal to u - v, of at most max(size u, size v)+1 limbs |
| Gmp.Mul | src/fp.cpp:89 | mpz_mul with size u + size v destination limbs: a valid result equal to u * v |
| Gmp.Mod | src/fp.cpp:99 | mpz_mod of a non-negative u with abs m destination limbs: a valid result equal to u mod abs m, in [0, abs m) |
| Gmp.Invert | src/fp.cpp:108 | mpz_invert of u modulo m, for u >= 0, m > 0 and gcd(u, m) == 1: a valid result equal to Inverse(u, m) |
| Gmp.ToArray | src/fp.cpp:66 | local::toArray of a non-negative value below base^n: y[0..n) holds well-formed limbs of that value, and y past n is unchanged |
| Limbs.ValFromNat | src/fp.cpp:66 | the n low limbs of a value below base^n denote that value |
| Limbs.FromNatVal | src/fp.cpp:66 | the limbs of Val(s) are s itself, for a well-formed s |
| Limbs.ZeroExtend | src/fp.cpp:100 | zero-filling above the first m limbs keeps the value and well-formedness of those m limbs |
| Limbs.ValBound | src/fp.cpp:29 | n well-formed limbs denote a value below base^n |
| OpeFunc.AddScratch | src/fp.cpp:56-65 | the sum of x and y in a fresh N + 2 limb mpz_t, less p once if it reaches p: a valid header denoting AddValue(x, y, p), which is in [0, base^N) |
| OpeFunc.SubIfAtLeast | src/fp.cpp:63-65 | the mpz_cmp test and in-place mpz_sub: the result is mz - mp when mz >= mp and mz otherwise |
| OpeFunc.Add | src/fp.cpp:54-67 | addC for inputs whose sum, less p if it reaches p, fits in N limbs. z holds well-formed limbs of AddValue(x, y, p), the sum less p once if it reaches p. Limbs of z past N are unchanged |
| OpeFunc.AddValueIsMod | src/fp.cpp:54-67 | for x, y < p, AddValue is (x + y) mod p and below p |
| OpeFunc.AddValueFits | src/fp.cpp:54-67 | the sum less the conditional p fits in N limbs whenever p does and the sum exceeds p by less than base^N |
| OpeFunc.SubScratch | src/fp.cpp:70-80 | the difference of x and y in a fresh N + 1 limb mpz_t, plus p once if it is negative: a valid header denoting SubValue(x, y, p), which is in [0, base^N) |
| OpeFunc.Sub | src/fp.cpp:68-82 | subC for y <= x + p: z holds well-formed limbs of SubValue(x, y, p), the difference plus p once if it is negative |
| OpeFunc.SubValueIsMod | src/fp.cpp:68-82 | for x, y < p, SubValue is (x - y) mod p, in [0, p) |
| OpeFunc.SubValueFits | src/fp.cpp:68-82 | that result is non-negative and fits in N limbs |
| OpeFunc.MulPre | src/fp.cpp:83-91 | z[0..2N) holds well-formed limbs of x * y; z past 2N is unchanged |
| OpeFunc.ProductFits | src/fp.cpp:83-91 | the product of two N-limb values fits in 2N limbs |
| OpeFunc.Mod | src/fp.cpp:92-101 | for p > 0, y[0..N) holds well-formed limbs of x[0..2N) mod p, which is below p. The limbs above the backend's result are cleared; y past N is unchanged |
| ModArith.GcdDivides | src/fp.cpp:102-110 | Gcd(a, b) divides a and b |
| ModArith.GcdIsGreatest | src/fp.cpp:102-110 | every common divisor of a and b divides Gcd(a, b) |
| ModArith.Inverse | src/fp.cpp:108 | the inverse of x modulo p when gcd(x, p) == 1: r < p with r * x == 1 mod p |
| ModArith.InverseUnique | src/fp.cpp:108 | any r' < p with r' * x == 1 mod p is Inverse(x, p) |
| OpeFunc.Inv | src/fp.cpp:102-110 | for x invertible modulo op.p, y holds well-formed limbs of Inverse(x, p). So y < p and y * x == 1 mod p; y past N is unchanged |
| OpeFunc.Neg | src/fp.cpp:115-122 | negC for x <= 2p: y denotes NegValue(x, p), which is (-x) mod p when x < p. When x is zero, y becomes all-zero and is not written at all if it is x |
| OpeFunc.NegValueIsMod | src/fp.cpp:115-122 | for x < p, NegValue is (-x) mod p, in [0, p) |
| OpeFunc.NegValueIsDifference | src/fp.cpp:115-122 | for 0 < x <= p, negC leaves p - x |
| OpeFunc.NegInvolutive | src/fp.cpp:115-122 | neg(neg(x)) == x for x < p |
| Dispatch.Ladder | src/fp.cpp:152-182 | each platform's ladder starts at 128 and is strictly increasing |
| Dispatch.Select | src/fp.cpp:152-182 | the first rung holding bitLen bits. It is on the ladder and at least bitLen; None iff every rung is below bitLen; on an increasing ladder it is the smallest rung that holds bitLen |
| Dispatch.RungFor64 | src/fp.cpp:152-182 | on 64-bit platforms the rung is the first of 128/192/256/384/576 that is at least bitLen, and none above 576 |
| Dispatch.RungFor32 | src/fp.cpp:152-182 | on 32-bit platforms the rung is the first of 128/160/192/224/256/384/544 that is at least bitLen, and none above 544 |
| Dispatch.RungsAligned | src/fp.cpp:135 | every rung is a whole number of words, and rung / UnitBitN is the N of that rung's instance |
| Dispatch.RungForSpec | src/fp.cpp:147-182 | None iff bitLen is above the top rung. Otherwise the rung holds bitLen bits, is the least ladder rung that does, and N * UnitBitN >= bitLen |
| Dispatch.SetOpFor | src/fp.cpp:134-145 | SET_OP(n): N becomes n / UnitBitN and all nine routine slots name OpeFunc<n> |
| Dispatch.SetOp | src/fp.cpp:147-182 | the table is bound to the selected rung's instance, with N equal to that instance's N; above the top rung, N and every slot are unchanged |

## Left out

- `include/mcl/stdio.h`: formatted console output, with no arithmetic content.
- `createFpGenerator` / `destroyFpGenerator` (src/fp.cpp:5-24): allocation of a code generator, with no behaviour to state.
- `SET_OP_LLVM` (src/fp.cpp:125-132) and the NIST P-192 multiply override (src/fp.cpp:184-188). They bind routines generated outside this file. The override changes speed, not results. The model is the build without LLVM.
- The `sizeof(mp_limb_t) == sizeof(Unit)` assertion (src/fp.cpp:149). The word width is the `Platform` parameter, and a GMP limb is a `Unit` by construction.
- The unused modulus argument `p` of `setOp`.
- `setOp` expands `SET_OP(n)` inside each branch of its chain. The model's chain picks the rung and then runs `SetOpFor` once for it, which binds the same fields to the same values.
- Op fields other than `N`, `p` and the nine routine slots. The header that declares `Op` is not part of this model.
- GMP's internal algorithms and its storage reallocation. Each backend call instead requires the destination allocation GMP needs, and writes only the significant limbs of its result, leaving other limbs up to the allocation unspecified.
- The `mpz_class` that `invOp` uses is modelled as fresh storage of N limbs that only the backend writes.
- The `local::toArray`, `clearArray`, `copyArray` and `isZeroArray` helpers are not in the source files of this model. They are modelled by their effect on limb values. `toArray` is taken to require a non-negative result that fits in the target.
- The stack scratch `ret` of `addC` and `subC` is uninitialised in C. It is a fresh array here, and no contract depends on its contents. The scratch computation and the final `toArray` are two methods (`AddScratch` then `Add`, `SubScratch` then `Sub`), which is the same sequence of steps.
- Limb values are unbounded naturals that are kept below 2^UnitBits by the `Wf` predicate. Machine-integer overflow is not modelled, including of the `int` size fields, because GMP computes on exact values.
- `mpz_invert` failure. The source ignores its result, so `OpeFunc.Inv` requires x to be invertible modulo p (gcd 1, p > 0).
- OpeFunc.Add: requires that the reduced sum fit in N limbs, the condition under which its final `toArray` is defined. The source leaves that to its callers.
- OpeFunc.Sub: requires y <= x + p, so that the result after one addition of p is not negative, which `toArray` needs.
- OpeFunc.Neg: requires x <= 2p, which is Sub's condition for `subC(p, x)`.
- OpeFunc.Add and OpeFunc.Sub state their result as `AddValue` and `SubValue`. The modular meaning for reduced inputs is proved separately in `AddValueIsMod` and `SubValueIsMod`, not repeated in the methods' own contracts.
