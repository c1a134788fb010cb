/** src/rgsw.cpp: the ascending plaintext-modulus gadget of RGSWEval. */
module Rgsw {
  import opened Arith
  import opened Utils

  /** gen_gadget: l values, starting at 1, each the previous one shifted
      left by base_log2 in uint64_t (so modulo 2^64) and reduced mod t. */
  method GenGadget(l: nat, baseLog2: nat, plainModulus: nat) returns (gadget: seq<nat>)
    requires baseLog2 < 64 && plainModulus >= 1
    ensures |gadget| == l
    ensures forall i :: 0 <= i < l ==> gadget[i] == ShiftModPow(baseLog2, i, plainModulus, U64)
    ensures l >= 1 ==> gadget[0] == 1
    ensures forall i :: 1 <= i < l ==> gadget[i] < plainModulus
    ensures forall i :: 0 <= i < l - 1 ==>
      gadget[i + 1] == ((gadget[i] * Pow2(baseLog2)) % U64) % plainModulus
  {
    Pow2Of64();
    var row := seq(l, _ => 0);
    var currExp := 1;
    var i := 0;
    while i < l
      invariant 0 <= i <= l && |row| == l
      invariant currExp == ShiftModPow(baseLog2, i, plainModulus, U64)
      invariant forall i' :: 0 <= i' < i ==> row[i'] == ShiftModPow(baseLog2, i', plainModulus, U64)
    {
      row := row[i := currExp];
      currExp := ((currExp * Pow2(baseLog2)) % U64) % plainModulus;
      i := i + 1;
    }
    gadget := row;
  }

  /** When t * 2^base_log2 fits in 64 bits the shift never wraps, and
      gen_gadget[i] == 2^(i * base_log2) mod t. */
  lemma GenGadgetClosed(b: nat, i: nat, t: nat)
    requires 2 <= t && t * Pow2(b) <= U64
    ensures ShiftModPow(b, i, t, U64) == Pow2(b * i) % t
  {
    ShiftModPowClosed(b, i, t, U64);
  }

  /** Under the same no-wrap condition the 64-bit and the 128-bit
      recurrences agree: neither width ever wraps. */
  lemma GenGadgetWidthsAgree(b: nat, i: nat, t: nat)
    requires 2 <= t && t * Pow2(b) <= U64
    ensures ShiftModPow(b, i, t, U64) == ShiftModPow(b, i, t, U128)
  {
    ShiftModPowClosed(b, i, t, U64);
    ShiftModPowClosed(b, i, t, U128);
  }

  /** gen_gadget for t and a gsw_gadget row built for the single modulus t
      are each other's reverse: entry i of the ascending table is column
      l-1-i of the descending row. */
  method GenGadgetReversesGswGadget(l: nat, b: nat, t: nat) returns (ascending: seq<nat>, gsw: seq<seq<nat>>)
    requires b < 64 && 2 <= t && t * Pow2(b) <= U64
    ensures |ascending| == l && |gsw| == 1 && |gsw[0]| == l
    ensures forall i :: 0 <= i < l ==> ascending[i] == gsw[0][l - 1 - i]
  {
    ascending := GenGadget(l, b, t);
    gsw := GswGadget(l, b, 1, [t]);
    forall i | 0 <= i < l
      ensures ascending[i] == gsw[0][l - 1 - i]
    {
      GenGadgetWidthsAgree(b, i, t);
    }
  }
}
