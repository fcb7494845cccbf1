/**
 setOp: choose the OpeFunc<bitN> instance for a modulus of bitLen bits and
 bind its routines into the operation table. The instances that exist form a
 ladder of bit lengths that depends on the platform's word width; setOp takes
 the smallest rung that holds bitLen bits and leaves the table alone when
 bitLen is above the top rung.
 */
module Dispatch {
  import opened Limbs
  import OpeFunc
  import FpBase

  datatype Option<T> = None | Some(value: T)

  /** Every element is strictly below every later one. */
  predicate StrictlyIncreasing(l: seq<nat>)
  {
    forall i, j :: 0 <= i < j < |l| ==> l[i] < l[j]
  }

  /** The instance sizes setOp tries, in the order of its if/else chain. */
  function Ladder(pl: Platform): (l: seq<nat>)
    ensures |l| > 0 && l[0] == 128 && StrictlyIncreasing(l)
  {
    match pl
    case Os64 => [128, 192, 256, 384, 576]
    case Os32 => [128, 160, 192, 224, 256, 384, 544]
  }

  /**
   The first rung of the ladder that holds bitLen bits, or None when no rung
   does. On a strictly increasing ladder that is the smallest such rung.
   */
  function Select(ladder: seq<nat>, bitLen: nat): (r: Option<nat>)
    ensures r.Some? ==> r.value in ladder && bitLen <= r.value
    ensures r.None? <==> forall k :: 0 <= k < |ladder| ==> ladder[k] < bitLen
    ensures r.Some? && StrictlyIncreasing(ladder) ==>
              forall k :: 0 <= k < |ladder| && bitLen <= ladder[k] ==> r.value <= ladder[k]
  {
    if |ladder| == 0 then None
    else if bitLen <= ladder[0] then Some(ladder[0])
    else
      var rest := Select(ladder[1..], bitLen);
      assert forall k :: 1 <= k < |ladder| ==> ladder[k] == ladder[1..][k - 1];
      rest
  }

  /** The instance setOp binds for bitLen on platform pl. */
  function RungFor(pl: Platform, bitLen: nat): (r: Option<nat>)
  {
    Select(Ladder(pl), bitLen)
  }

  /**
   Every rung is a whole number of words, and the N that SET_OP stores for a
   rung is the limb count of that rung's instance.
   */
  lemma RungsAligned(pl: Platform, n: nat)
    requires n in Ladder(pl)
    ensures n % UnitBits(pl) == 0
    ensures n / UnitBits(pl) == OpeFunc.Family(pl, n).N()
    ensures (n / UnitBits(pl)) * UnitBits(pl) == n
  {
    if pl == Os64 {
      assert n == 128 || n == 192 || n == 256 || n == 384 || n == 576;
    } else {
      assert n == 128 || n == 160 || n == 192 || n == 224 || n == 256 || n == 384 || n == 544;
    }
  }

  /**
   What setOp promises about the chosen rung: the largest modulus it accepts
   is the top rung, the rung holds bitLen bits, it is the smallest rung that
   does, and the table's N words hold bitLen bits.
   */
  lemma RungForSpec(pl: Platform, bitLen: nat)
    ensures RungFor(pl, bitLen).None? <==> bitLen > Ladder(pl)[|Ladder(pl)| - 1]
    ensures RungFor(pl, bitLen).Some? ==>
              var n := RungFor(pl, bitLen).value;
              n in Ladder(pl) && bitLen <= n &&
              (forall m :: m in Ladder(pl) && bitLen <= m ==> n <= m) &&
              (n / UnitBits(pl)) * UnitBits(pl) >= bitLen
  {
    var l := Ladder(pl);
    var r := RungFor(pl, bitLen);
    if r.None? {
      assert l[|l| - 1] < bitLen;
    } else {
      RungsAligned(pl, r.value);
      forall m | m in l && bitLen <= m
        ensures r.value <= m
      {
        var k :| 0 <= k < |l| && l[k] == m;
      }
    }
    if bitLen > l[|l| - 1] {
      forall k | 0 <= k < |l|
        ensures l[k] < bitLen
      {
        if k < |l| - 1 {
          assert l[k] < l[|l| - 1];
        }
      }
    }
  }

  /** Select passes over a first rung too small for bitLen and goes on with the rest. */
  lemma SelectSkip(ladder: seq<nat>, bitLen: nat, rest: seq<nat>)
    requires |ladder| > 0 && ladder[0] < bitLen && rest == ladder[1..]
    ensures Select(ladder, bitLen) == Select(rest, bitLen)
  {
  }

  /** The 64-bit ladder written out as setOp's chain of comparisons. */
  lemma {:induction false} RungFor64(bitLen: nat)
    ensures RungFor(Os64, bitLen) ==
              if bitLen <= 128 then Some(128)
              else if bitLen <= 192 then Some(192)
              else if bitLen <= 256 then Some(256)
              else if bitLen <= 384 then Some(384)
              else if bitLen <= 576 then Some(576)
              else None
  {
    var l0 := Ladder(Os64);
    if bitLen > 128 {
      var l1 := [192, 256, 384, 576];
      SelectSkip(l0, bitLen, l1);
      if bitLen > 192 {
        var l2 := [256, 384, 576];
        SelectSkip(l1, bitLen, l2);
        if bitLen > 256 {
          var l3 := [384, 576];
          SelectSkip(l2, bitLen, l3);
          if bitLen > 384 {
            SelectSkip(l3, bitLen, [576]);
          }
        }
      }
    }
  }

  /** The 32-bit ladder written out as setOp's chain of comparisons. */
  lemma {:induction false} RungFor32(bitLen: nat)
    ensures RungFor(Os32, bitLen) ==
              if bitLen <= 128 then Some(128)
              else if bitLen <= 160 then Some(160)
              else if bitLen <= 192 then Some(192)
              else if bitLen <= 224 then Some(224)
              else if bitLen <= 256 then Some(256)
              else if bitLen <= 384 then Some(384)
              else if bitLen <= 544 then Some(544)
              else None
  {
    var l0 := Ladder(Os32);
    if bitLen > 128 {
      var l1 := [160, 192, 224, 256, 384, 544];
      SelectSkip(l0, bitLen, l1);
      if bitLen > 160 {
        var l2 := [192, 224, 256, 384, 544];
        SelectSkip(l1, bitLen, l2);
        if bitLen > 192 {
          var l3 := [224, 256, 384, 544];
          SelectSkip(l2, bitLen, l3);
          if bitLen > 224 {
            var l4 := [256, 384, 544];
            SelectSkip(l3, bitLen, l4);
            if bitLen > 256 {
              var l5 := [384, 544];
              SelectSkip(l4, bitLen, l5);
              if bitLen > 384 {
                SelectSkip(l5, bitLen, [544]);
              }
            }
          }
        }
      }
    }
  }

  /** The nine routine slots all name the OpeFunc<n> instance. */
  predicate BoundTo(op: FpBase.Op, n: nat)
    reads op
  {
    op.isZero == FpBase.Generic(n) && op.clear == FpBase.Generic(n) &&
    op.copy == FpBase.Generic(n) && op.negP == FpBase.Generic(n) &&
    op.invOp == FpBase.Generic(n) && op.addP == FpBase.Generic(n) &&
    op.subP == FpBase.Generic(n) && op.mulPreP == FpBase.Generic(n) &&
    op.modP == FpBase.Generic(n)
  }

  /** SET_OP(n): store n / UnitBitN as N and bind every slot to OpeFunc<n>. */
  method SetOpFor(op: FpBase.Op, pl: Platform, n: nat)
    modifies op
    ensures op.N == n / UnitBits(pl) && BoundTo(op, n)
    ensures op.p == old(op.p)
  {
    op.N := n / UnitBits(pl);
    op.isZero := FpBase.Generic(n);
    op.clear := FpBase.Generic(n);
    op.copy := FpBase.Generic(n);
    op.negP := FpBase.Generic(n);
    op.invOp := FpBase.Generic(n);
    op.addP := FpBase.Generic(n);
    op.subP := FpBase.Generic(n);
    op.mulPreP := FpBase.Generic(n);
    op.modP := FpBase.Generic(n);
  }

  /**
   setOp(op, p, bitLen) on platform pl: the if/else chain over the ladder,
   with the 32-bit-only rungs 160 and 224 and the platform's own top rung.
   The chain picks the rung n (0 when none holds bitLen), and SET_OP(n) then
   runs once for it.
   */
  method SetOp(op: FpBase.Op, pl: Platform, bitLen: nat)
    modifies op
    ensures op.p == old(op.p)
    ensures RungFor(pl, bitLen).Some? ==>
              var n := RungFor(pl, bitLen).value;
              BoundTo(op, n) && op.N == n / UnitBits(pl) && op.N == OpeFunc.Family(pl, n).N()
    ensures RungFor(pl, bitLen).None? ==>
              op.N == old(op.N) && op.isZero == old(op.isZero) && op.clear == old(op.clear) &&
              op.copy == old(op.copy) && op.negP == old(op.negP) && op.invOp == old(op.invOp) &&
              op.addP == old(op.addP) && op.subP == old(op.subP) &&
              op.mulPreP == old(op.mulPreP) && op.modP == old(op.modP)
  {
    if pl == Os64 {
      RungFor64(bitLen);
    } else {
      RungFor32(bitLen);
    }
    var n: nat := 0;
    if bitLen <= 128 {
      n := 128;
    } else if pl == Os32 && bitLen <= 160 {
      n := 160;
    } else if bitLen <= 192 {
      n := 192;
    } else if pl == Os32 && bitLen <= 224 {
      n := 224;
    } else if bitLen <= 256 {
      n := 256;
    } else if bitLen <= 384 {
      n := 384;
    } else if pl == Os64 {
      if bitLen <= 576 {
        n := 576;
      }
    } else {
      if bitLen <= 544 {
        n := 544;
      }
    }
    if n != 0 {
      RungsAligned(pl, n);
      SetOpFor(op, pl, n);
    }
  }
}
