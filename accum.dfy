/** The 128-bit multiply-accumulate used by external_product and by
    evaluate_first_dim_delayed_mod, and the single reduction that follows
    it. utils::multiply_poly_acum lives in src/utils.h, which is not part of
    this model; its semantics here is buf[i] += a[i] * b[i] in __uint128_t. */
module Accum {
  import opened Arith

  /** The __uint128_t running sum of terms: every addition wraps modulo 2^128. */
  function Acc128(terms: seq<nat>): (r: nat)
    ensures r < U128
  {
    if |terms| == 0 then 0 else (Acc128(terms[..|terms| - 1]) + terms[|terms| - 1]) % U128
  }

  /** The same sum reduced modulo q after every term. */
  function EagerMod(terms: seq<nat>, q: nat): (r: nat)
    requires q > 0
    ensures r < q
  {
    if |terms| == 0 then 0 else (EagerMod(terms[..|terms| - 1], q) + terms[|terms| - 1] % q) % q
  }

  /** When |terms| terms below t cannot reach 2^128, the accumulator never
      wraps and holds the exact sum. */
  lemma {:induction false} Acc128Exact(terms: seq<nat>, t: nat)
    requires forall i :: 0 <= i < |terms| ==> terms[i] < t
    requires |terms| * t <= U128
    ensures Acc128(terms) == Sum(terms)
  {
    if |terms| > 0 {
      var n := |terms| - 1;
      var init := terms[..n];
      assert |terms| * t == n * t + t;
      Acc128Exact(init, t);
      SumBound(init, t);
      SmallDivMod(Sum(init) + terms[n], U128);
    }
  }

  /** Reducing once at the end gives what reducing after every term gives. */
  lemma {:induction false} DelayedModIsEager(terms: seq<nat>, q: nat)
    requires q > 0
    ensures Sum(terms) % q == EagerMod(terms, q)
  {
    if |terms| > 0 {
      var n := |terms| - 1;
      DelayedModIsEager(terms[..n], q);
      ModAdd(Sum(terms[..n]), terms[n], q);
    }
  }

  /** Two factors below q have a product below q * q. */
  lemma ProductBelow(a: nat, b: nat, q: nat)
    requires a < q && b < q
    ensures a * b < q * q
  {
    MulMono(a, q - 1, b);
    MulMono(b, q, q - 1);
    assert (q - 1) * q < q * q;
  }

  /** buf after buf[offset + i] += a[i] * b[i] in __uint128_t for i < count. */
  function MulAcc(buf: seq<nat>, a: seq<nat>, b: seq<nat>, offset: nat, count: nat): (r: seq<nat>)
    requires count <= |a| && count <= |b| && offset + count <= |buf|
    ensures |r| == |buf|
  {
    seq(|buf|, c requires 0 <= c < |buf| =>
      if offset <= c < offset + count then (buf[c] + a[c - offset] * b[c - offset]) % U128 else buf[c])
  }

  /** utils::multiply_poly_acum: for i < count, buf[offset + i] += a[i] * b[i]
      in __uint128_t; nothing else in buf changes. */
  method MultiplyPolyAcum(a: seq<nat>, b: seq<nat>, count: nat, buf: array<nat>, offset: nat)
    requires count <= |a| && count <= |b| && offset + count <= buf.Length
    modifies buf
    ensures buf[..] == MulAcc(old(buf[..]), a, b, offset, count)
  {
    ghost var before := buf[..];
    var i := 0;
    while i < count
      invariant 0 <= i <= count
      invariant forall c :: 0 <= c < buf.Length ==>
        buf[c] == if offset <= c < offset + i then (before[c] + a[c - offset] * b[c - offset]) % U128
                  else before[c]
    {
      buf[offset + i] := (buf[offset + i] + a[i] * b[i]) % U128;
      i := i + 1;
    }
  }
}
