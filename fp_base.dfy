/**
 The operation table mcl::fp::Op, reduced to the fields the routine family
 and the dispatcher touch: the limb count N, the modulus buffer p (read by
 invOp) and the nine routine bindings. A binding names the OpeFunc<bitN>
 instance whose routine sits in that slot.
 */
module FpBase {

  datatype Binding = Unbound | Generic(bitN: nat)

  class Op {
    var N: nat
    var p: array<nat>
    var isZero: Binding
    var clear: Binding
    var copy: Binding
    var negP: Binding
    var invOp: Binding
    var addP: Binding
    var subP: Binding
    var mulPreP: Binding
    var modP: Binding

    /** A table over modulus buffer p with nothing bound yet. */
    constructor (p: array<nat>)
      ensures this.p == p && N == 0
      ensures isZero == clear == copy == negP == invOp == Unbound
      ensures addP == subP == mulPreP == modP == Unbound
    {
      this.p := p;
      N := 0;
      isZero, clear, copy, negP, invOp := Unbound, Unbound, Unbound, Unbound, Unbound;
      addP, subP, mulPreP, modP := Unbound, Unbound, Unbound, Unbound;
    }
  }
}
