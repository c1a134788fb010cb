/** Little-endian numbers over base 2^w: the common view behind gadget
    digit extraction (shift and mask), byte packing into plaintext
    coefficients, and byte unpacking from them. */
module Digits {
  import opened Arith

  type Byte = x: nat | x < 256

  /** The number whose base-2^w digits, least significant first, are ds. */
  function LeNum(ds: seq<nat>, w: nat): nat
  {
    if |ds| == 0 then 0 else ds[0] + Pow2(w) * LeNum(ds[1..], w)
  }

  /** Digit i of x in base 2^w, i.e. (x >> (i*w)) & (2^w - 1). */
  function Digit(x: nat, i: nat, w: nat): nat
  {
    Low(Shr(x, i * w), w)
  }

  /** The n lowest base-2^w digits of x, least significant first. */
  function DigitsOf(x: nat, n: nat, w: nat): (ds: seq<nat>)
    ensures |ds| == n
  {
    seq(n, i requires 0 <= i < n => Digit(x, i, w))
  }

  function Zeros(k: nat): (z: seq<nat>)
    ensures |z| == k && forall i :: 0 <= i < k ==> z[i] == 0
  {
    seq(k, _ => 0)
  }

  predicate AllBelow(ds: seq<nat>, bound: nat)
  {
    forall i :: 0 <= i < |ds| ==> ds[i] < bound
  }

  /** 2^(w*(n+1)) = 2^w * 2^(w*n), with the products passed in by name. */
  lemma Pow2Step(w: nat, n: nat, wn: nat, wn1: nat)
    requires wn == w * n && wn1 == w * (n + 1)
    ensures Pow2(wn1) == Pow2(w) * Pow2(wn)
  {
    assert wn1 == w + wn;
    Pow2Add(w, wn);
  }

  /** A digit below a plus a times a number below b is below a*b. */
  lemma MulAddBound(d: nat, a: nat, x: nat, b: nat)
    requires d < a && x < b
    ensures d + a * x < a * b
  {
    MulMono(x, b - 1, a);
    MulSubOneLeft(b, a);
  }

  lemma Regroup(c: nat, a: nat, x: nat, b: nat, d: nat)
    ensures c + a * (x + b * d) == (c + a * x) + (a * b) * d
  {
    MulLeftDistrib(a, x, b * d);
    MulAssoc(a, b, d);
  }

  lemma {:induction false} LeNumBound(ds: seq<nat>, w: nat)
    requires AllBelow(ds, Pow2(w))
    ensures LeNum(ds, w) < Pow2(w * |ds|)
  {
    if |ds| == 0 {
      assert Pow2(0) == 1;
    } else {
      var rest := ds[1..];
      LeNumBound(rest, w);
      Pow2Step(w, |rest|, w * |rest|, w * |ds|);
      MulAddBound(ds[0], Pow2(w), LeNum(rest, w), Pow2(w * |rest|));
    }
  }

  /** Appending one digit at the top. */
  lemma {:induction false} LeNumSnoc(ds: seq<nat>, d: nat, w: nat)
    ensures LeNum(ds + [d], w) == LeNum(ds, w) + Pow2(w * |ds|) * d
  {
    if |ds| == 0 {
      assert Pow2(0) == 1;
      assert LeNum([d], w) == d + Pow2(w) * LeNum([], w);
    } else {
      var rest := ds[1..];
      assert (ds + [d])[1..] == rest + [d];
      LeNumSnoc(rest, d, w);
      Pow2Step(w, |rest|, w * |rest|, w * |ds|);
      Regroup(ds[0], Pow2(w), LeNum(rest, w), Pow2(w * |rest|), d);
    }
  }

  /** High zero digits do not change the number. */
  lemma {:induction false} LeNumZeros(ds: seq<nat>, k: nat, w: nat)
    ensures LeNum(ds + Zeros(k), w) == LeNum(ds, w)
  {
    if k > 0 {
      assert ds + Zeros(k) == (ds + Zeros(k - 1)) + [0];
      LeNumSnoc(ds + Zeros(k - 1), 0, w);
      LeNumZeros(ds, k - 1, w);
    } else {
      assert ds + Zeros(0) == ds;
    }
  }

  /** Digit i of x is digit i-1 of x with its lowest digit shifted out. */
  lemma DigitSucc(x: nat, w: nat, i: nat)
    requires i >= 1
    ensures Digit(x, i, w) == Digit(Shr(x, w), i - 1, w)
  {
    MulSucc(i, w);
    ShrSplit(x, w, (i - 1) * w, i * w);
  }

  lemma ShrSplit(x: nat, a: nat, b: nat, ab: nat)
    requires ab == a + b
    ensures Shr(x, ab) == Shr(Shr(x, a), b)
  {
    ShrAdd(x, a, b);
  }

  /** Digit i of the number built from ds is ds[i]. */
  lemma {:induction false} LeNumDigit(ds: seq<nat>, w: nat, i: nat)
    requires AllBelow(ds, Pow2(w)) && i < |ds|
    ensures Digit(LeNum(ds, w), i, w) == ds[i]
  {
    var x := LeNum(ds, w);
    var rest := ds[1..];
    ShrLowUnique(x, w, ds[0], LeNum(rest, w));
    if i > 0 {
      LeNumDigit(rest, w, i - 1);
      DigitSucc(x, w, i);
    }
  }

  lemma DigitsOfBelow(x: nat, n: nat, w: nat)
    ensures AllBelow(DigitsOf(x, n, w), Pow2(w))
  {
    forall i | 0 <= i < n
      ensures DigitsOf(x, n, w)[i] < Pow2(w)
    {
      ShrLow(Shr(x, i * w), w);
    }
  }

  /** Dropping the lowest digit is taking the digits of x >> w. */
  lemma DigitsOfTail(x: nat, n: nat, w: nat)
    requires n >= 1
    ensures DigitsOf(x, n, w)[1..] == DigitsOf(Shr(x, w), n - 1, w)
  {
    forall i | 0 <= i < n - 1
      ensures DigitsOf(x, n, w)[1..][i] == DigitsOf(Shr(x, w), n - 1, w)[i]
    {
      DigitSucc(x, w, i + 1);
    }
  }

  /** x >> w of some x < 2^(n*w) is below 2^((n-1)*w). */
  lemma ShrBound(x: nat, n: nat, w: nat)
    requires n >= 1 && x < Pow2(n * w)
    ensures Shr(x, w) < Pow2((n - 1) * w)
  {
    MulSucc(n, w);
    Pow2Step(w, n - 1, w * (n - 1), w * n);
    ShrLow(x, w);
    MulBelow(x, Low(x, w), Pow2(w), Shr(x, w), Pow2((n - 1) * w));
  }

  /** From x = a + p*s < p*b follows s < b. */
  lemma MulBelow(x: nat, a: nat, p: nat, s: nat, b: nat)
    requires x == a + p * s && x < p * b
    ensures s < b
  {
    if s >= b {
      MulMono(b, s, p);
    }
  }

  /** Extracting n digits and putting them back together is the identity
      on every x below 2^(n*w). */
  lemma {:induction false} LeNumDigitsOf(x: nat, n: nat, w: nat)
    requires x < Pow2(n * w)
    ensures LeNum(DigitsOf(x, n, w), w) == x
    decreases n
  {
    if n > 0 {
      ShrBound(x, n, w);
      LeNumDigitsOf(Shr(x, w), n - 1, w);
      DigitsOfTail(x, n, w);
      ShrLow(x, w);
      assert DigitsOf(x, n, w)[0] == Low(x, w);
    } else {
      assert Pow2(0) == 1;
    }
  }

  /** The Horner form is the weighted sum of the digits. */
  function WeightedSum(ds: seq<nat>, w: nat): nat
  {
    if |ds| == 0 then 0 else WeightedSum(ds[..|ds| - 1], w) + ds[|ds| - 1] * Pow2(w * (|ds| - 1))
  }

  lemma {:induction false} LeNumIsWeightedSum(ds: seq<nat>, w: nat)
    ensures LeNum(ds, w) == WeightedSum(ds, w)
  {
    if |ds| > 0 {
      var init := ds[..|ds| - 1];
      assert ds == init + [ds[|ds| - 1]];
      LeNumSnoc(init, ds[|ds| - 1], w);
      LeNumIsWeightedSum(init, w);
    }
  }

  /** Weighted sums of digit sequences that agree modulo q agree modulo q. */
  lemma {:induction false} WeightedSumMod(ds: seq<nat>, es: seq<nat>, w: nat, q: nat)
    requires q > 0 && |ds| == |es|
    requires forall i :: 0 <= i < |ds| ==> ds[i] % q == es[i] % q
    ensures WeightedSum(ds, w) % q == WeightedSum(es, w) % q
  {
    if |ds| > 0 {
      var n := |ds| - 1;
      WeightedSumMod(ds[..n], es[..n], w, q);
      var p := Pow2(w * n);
      ModMulMod(ds[n], p, q);
      ModMulMod(es[n], p, q);
      ModAdd(WeightedSum(ds[..n], w), ds[n] * p, q);
      ModAdd(WeightedSum(es[..n], w), es[n] * p, q);
    }
  }
}
