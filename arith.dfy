/** Integer facts shared by the whole model: powers of two, the division and
    remainder identities that shifts and masks rely on, bitwise and/or on
    naturals, and integer floor/ceiling base-2 logarithms. */
module Arith {

  /** 2^64 and 2^128: the ranges of uint64_t and __uint128_t. */
  const U64: nat := 0x1_0000_0000_0000_0000
  const U128: nat := 0x1_0000_0000_0000_0000_0000_0000_0000_0000

  function Pow2(e: nat): (r: nat)
    ensures r >= 1
  {
    if e == 0 then 1 else Pow2(e - 1) + Pow2(e - 1)
  }

  lemma {:induction false} Pow2Add(a: nat, b: nat)
    ensures Pow2(a + b) == Pow2(a) * Pow2(b)
  {
    if b > 0 {
      Pow2Add(a, b - 1);
      assert Pow2(a + b) == 2 * Pow2(a + b - 1);
    }
  }

  lemma {:induction false} Pow2Mono(a: nat, b: nat)
    requires a <= b
    ensures Pow2(a) <= Pow2(b)
  {
    if a < b {
      Pow2Mono(a, b - 1);
    }
  }

  lemma Pow2StrictMono(a: nat, b: nat)
    requires a < b
    ensures 2 * Pow2(a) <= Pow2(b)
  {
    Pow2Mono(a + 1, b);
  }

  /** Powers of two compare as their exponents do. */
  lemma Pow2MonoInv(a: nat, b: nat)
    requires Pow2(a) <= Pow2(b)
    ensures a <= b
  {
    if a > b {
      Pow2StrictMono(b, a);
    }
  }

  lemma Pow2LessInv(a: nat, b: nat)
    requires Pow2(a) < Pow2(b)
    ensures a < b
  {
    if a >= b {
      Pow2Mono(b, a);
    }
  }

  lemma Pow2Of64()
    ensures Pow2(64) == U64 && Pow2(128) == U128
  {
    assert Pow2(4) == 16;
    Pow2Add(4, 4);
    assert Pow2(8) == 0x100;
    Pow2Add(8, 8);
    assert Pow2(16) == 0x1_0000;
    Pow2Add(16, 16);
    assert Pow2(32) == 0x1_0000_0000;
    Pow2Add(32, 32);
    assert Pow2(64) == U64;
    Pow2Add(64, 64);
  }

  /** x is a power of two, by repeated halving. */
  predicate IsPow2(x: nat)
    decreases x
  {
    x == 1 || (x >= 2 && x % 2 == 0 && IsPow2(x / 2))
  }

  lemma {:induction false} Pow2IsPow2(e: nat)
    ensures IsPow2(Pow2(e))
  {
    if e > 0 {
      Pow2IsPow2(e - 1);
      assert Pow2(e) / 2 == Pow2(e - 1);
    }
  }

  /** Every power of two is Pow2 of its floor logarithm. */
  lemma {:induction false} IsPow2Exp(x: nat)
    requires IsPow2(x)
    ensures x >= 1 && Pow2(FloorLog2(x)) == x
  {
    if x != 1 {
      IsPow2Exp(x / 2);
    }
  }

  // ---------------------------------------------------------------------
  // Division and remainder

  lemma MulMono(a: nat, b: nat, c: nat)
    requires a <= b
    ensures a * c <= b * c
  {
    var k := b - a;
    assert b * c == a * c + k * c;
  }

  lemma MulAssoc(a: nat, b: nat, c: nat)
    ensures a * (b * c) == (a * b) * c
  {
  }

  lemma DivModUnique(x: nat, d: nat, q: nat, r: nat)
    requires d > 0 && r < d && x == q * d + r
    ensures x / d == q && x % d == r
  {
    var q', r' := x / d, x % d;
    assert x == q' * d + r';
    if q' > q {
      MulMono(q + 1, q', d);
    } else if q' < q {
      MulMono(q' + 1, q, d);
    }
  }

  lemma DivModMul(x: nat, y: nat, d: nat)
    requires d > 0
    ensures (x + y * d) / d == x / d + y
    ensures (x + y * d) % d == x % d
  {
    var q, r := x / d, x % d;
    assert x == q * d + r;
    MulRightDistrib(q, y, d);
    DivModUnique(x + y * d, d, q + y, r);
  }

  lemma MulDivExact(y: nat, d: nat)
    requires d > 0
    ensures (y * d) / d == y && (y * d) % d == 0
  {
    DivModUnique(y * d, d, y, 0);
  }

  lemma MulPositive(a: nat, b: nat)
    requires a > 0 && b > 0
    ensures a * b > 0
  {
    MulMono(1, a, b);
  }

  lemma MulRightDistrib(x: int, y: int, z: int)
    ensures (x + y) * z == x * z + y * z
  {
  }

  lemma MulAssocComm(x: int, y: int, z: int)
    ensures (x * y) * z == x * (z * y)
    ensures (x * y) * z == (x * z) * y
  {
  }

  lemma MulSubOneLeft(b: nat, a: nat)
    requires b >= 1
    ensures (b - 1) * a == a * b - a
  {
  }

  /** A value below 2^k is its own remainder and has quotient zero. */
  lemma SmallDivMod(x: nat, d: nat)
    requires x < d
    ensures x / d == 0 && x % d == x
  {
    DivModUnique(x, d, 0, x);
  }

  lemma ModAdd(x: nat, y: nat, m: nat)
    requires m > 0
    ensures (x + y) % m == (x % m + y % m) % m
  {
    var qx, rx := x / m, x % m;
    var qy, ry := y / m, y % m;
    assert x + y == (rx + ry) + (qx + qy) * m;
    DivModMul(rx + ry, qx + qy, m);
  }

  lemma ModMulMod(x: nat, y: nat, m: nat)
    requires m > 0
    ensures (x * y) % m == ((x % m) * (y % m)) % m
  {
    var qx, rx := x / m, x % m;
    var qy, ry := y / m, y % m;
    MulSplit(x, y, m, qx, rx, qy, ry);
    DivModMul(rx * ry, qx * y + rx * qy, m);
  }

  /** (qx*m + rx) * (qy*m + ry) = rx*ry + (qx*y + rx*qy)*m. */
  lemma MulSplit(x: nat, y: nat, m: nat, qx: nat, rx: nat, qy: nat, ry: nat)
    requires x == qx * m + rx && y == qy * m + ry
    ensures x * y == rx * ry + (qx * y + rx * qy) * m
  {
    calc {
      x * y;
      (qx * m + rx) * y;
      { MulRightDistrib(qx * m, rx, y); }
      (qx * m) * y + rx * y;
      { MulAssocComm(qx, m, y); }
      (qx * y) * m + rx * (qy * m + ry);
      { MulLeftDistrib(rx, qy * m, ry); MulAssoc(rx, qy, m); }
      (qx * y) * m + (rx * qy) * m + rx * ry;
      { MulRightDistrib(qx * y, rx * qy, m); }
      rx * ry + (qx * y + rx * qy) * m;
    }
  }

  lemma MulLeftDistrib(x: int, y: int, z: int)
    ensures x * (y + z) == x * y + x * z
  {
  }

  // ---------------------------------------------------------------------
  // Quotient and remainder by repeated subtraction, shifts by repeated
  // halving: definitions that unfold to linear arithmetic only

  /** x / n for n >= 1. */
  function Quot(x: nat, n: nat): nat
    requires n >= 1
    decreases x
  {
    if x < n then 0 else 1 + Quot(x - n, n)
  }

  /** x % n for n >= 1. */
  function Rem(x: nat, n: nat): (r: nat)
    requires n >= 1
    ensures r < n
    decreases x
  {
    if x < n then x else Rem(x - n, n)
  }

  /** i*w = w + (i-1)*w, in both orders of the factors. */
  lemma MulSucc(i: nat, w: nat)
    requires i >= 1
    ensures i * w == w + (i - 1) * w && w * i == i * w && w * (i - 1) == (i - 1) * w
  {
  }

  lemma MulSuccLeft(a: nat, n: nat)
    ensures (a + 1) * n == a * n + n
  {
  }

  lemma {:induction false} QuotRem(x: nat, n: nat)
    requires n >= 1
    ensures x == Quot(x, n) * n + Rem(x, n)
  {
    if x >= n {
      QuotRem(x - n, n);
      MulSuccLeft(Quot(x - n, n), n);
    }
  }

  /** Quotient and remainder are the unique q, r with x = q*n + r, r < n. */
  lemma {:induction false} QuotRemUnique(x: nat, n: nat, q: nat, r: nat)
    requires n >= 1 && r < n && x == q * n + r
    ensures Quot(x, n) == q && Rem(x, n) == r
  {
    if q > 0 {
      MulSuccLeft(q - 1, n);
      QuotRemUnique(x - n, n, q - 1, r);
    }
  }

  /** Adding a multiple of n adds to the quotient and keeps the remainder. */
  lemma {:induction false} QuotRemAddMul(x: nat, a: nat, n: nat)
    requires n >= 1
    ensures Quot(x + a * n, n) == Quot(x, n) + a && Rem(x + a * n, n) == Rem(x, n)
  {
    if a > 0 {
      MulSuccLeft(a - 1, n);
      QuotRemAddMul(x, a - 1, n);
      assert x + a * n == (x + (a - 1) * n) + n;
    }
  }

  /** Adding one carries into the quotient exactly when the remainder wraps. */
  lemma QuotRemSucc(x: nat, n: nat)
    requires n >= 1
    ensures Rem(x + 1, n) == if Rem(x, n) + 1 == n then 0 else Rem(x, n) + 1
    ensures Quot(x + 1, n) == if Rem(x, n) + 1 == n then Quot(x, n) + 1 else Quot(x, n)
  {
    QuotRem(x, n);
    var q, r := Quot(x, n), Rem(x, n);
    if r + 1 == n {
      MulSuccLeft(q, n);
      QuotRemUnique(x + 1, n, q + 1, 0);
    } else {
      QuotRemUnique(x + 1, n, q, r + 1);
    }
  }

  /** Rem and Quot are Dafny's % and /. */
  lemma QuotRemIsDivMod(x: nat, n: nat)
    requires n >= 1
    ensures Quot(x, n) == x / n && Rem(x, n) == x % n
  {
    QuotRem(x, n);
    DivModUnique(x, n, Quot(x, n), Rem(x, n));
  }

  /** x >> k. */
  function Shr(x: nat, k: nat): nat
  {
    if k == 0 then x else Shr(x / 2, k - 1)
  }

  /** x << k, without a width. */
  function Shl(x: nat, k: nat): nat
  {
    x * Pow2(k)
  }

  /** The k low bits of x. */
  function Low(x: nat, k: nat): nat
  {
    if k == 0 then 0 else x % 2 + 2 * Low(x / 2, k - 1)
  }

  /** x = low k bits + 2^k * (x >> k). */
  lemma {:induction false} ShrLow(x: nat, k: nat)
    ensures x == Low(x, k) + Pow2(k) * Shr(x, k) && Low(x, k) < Pow2(k)
  {
    if k > 0 {
      var y := x / 2;
      ShrLow(y, k - 1);
      var p, s := Pow2(k - 1), Shr(y, k - 1);
      MulRightDistrib(p, p, s);
    }
  }

  lemma LowBelow(x: nat, k: nat)
    ensures Low(x, k) < Pow2(k)
  {
    ShrLow(x, k);
  }

  lemma SplitUnique(p: nat, a: nat, b: nat, a': nat, b': nat)
    requires a < p && a' < p && a + p * b == a' + p * b'
    ensures a == a' && b == b'
  {
    if b < b' {
      MulMono(b + 1, b', p);
      MulSuccLeft(b, p);
    } else if b' < b {
      MulMono(b' + 1, b, p);
      MulSuccLeft(b', p);
    }
  }

  /** The split of ShrLow is the only one. */
  lemma ShrLowUnique(x: nat, k: nat, a: nat, b: nat)
    requires a < Pow2(k) && x == a + Pow2(k) * b
    ensures Low(x, k) == a && Shr(x, k) == b
  {
    ShrLow(x, k);
    SplitUnique(Pow2(k), a, b, Low(x, k), Shr(x, k));
  }

  /** Low and Shr are remainder and quotient by 2^k. */
  lemma ShrLowIsQuotRem(x: nat, k: nat)
    ensures Low(x, k) == Rem(x, Pow2(k)) && Shr(x, k) == Quot(x, Pow2(k))
  {
    ShrLow(x, k);
    SplitIsQuotRem(x, Pow2(k), Shr(x, k), Low(x, k));
  }

  lemma SplitIsQuotRem(x: nat, p: nat, s: nat, l: nat)
    requires l < p && x == l + p * s
    ensures Quot(x, p) == s && Rem(x, p) == l
  {
    QuotRemUnique(x, p, s, l);
  }

  lemma {:induction false} ShrAdd(x: nat, a: nat, b: nat)
    ensures Shr(Shr(x, a), b) == Shr(x, a + b)
  {
    if a > 0 {
      ShrAdd(x / 2, a - 1, b);
    }
  }

  /** The k low bits of the m low bits, k <= m, are the k low bits. */
  lemma {:induction false} LowLow(x: nat, k: nat, m: nat)
    requires k <= m
    ensures Low(Low(x, m), k) == Low(x, k)
  {
    if k > 0 {
      var z := Low(x, m);
      assert z % 2 == x % 2 && z / 2 == Low(x / 2, m - 1);
      LowLow(x / 2, k - 1, m - 1);
    }
  }

  /** The a+b low bits are the a low bits and, above them, the b low bits
      of x >> a. */
  lemma {:induction false} LowSplit(x: nat, a: nat, b: nat)
    ensures Low(x, a + b) == Low(x, a) + Pow2(a) * Low(Shr(x, a), b)
  {
    if a > 0 {
      LowSplit(x / 2, a - 1, b);
      var p, z := Pow2(a - 1), Low(Shr(x / 2, a - 1), b);
      MulAssoc(2, p, z);
    }
  }

  /** Shifting the a+b low bits right by a leaves the b low bits of x >> a. */
  lemma {:induction false} ShrLowComm(x: nat, a: nat, b: nat)
    ensures Shr(Low(x, a + b), a) == Low(Shr(x, a), b)
  {
    if a > 0 {
      assert Low(x, a + b) / 2 == Low(x / 2, a - 1 + b);
      ShrLowComm(x / 2, a - 1, b);
    }
  }

  /** Below 2^k, x is its own k low bits and shifts out to zero. */
  lemma LowSmall(x: nat, k: nat)
    requires x < Pow2(k)
    ensures Low(x, k) == x && Shr(x, k) == 0
  {
    ShrLowUnique(x, k, x, 0);
  }

  /** Reduction modulo 2^64 keeps the 64 low bits. */
  lemma Low64(x: nat)
    ensures Low(x, 64) == x % U64 && Shr(x, 64) == x / U64
  {
    ShrLow(x, 64);
    Pow2Of64();
    DivModUnique(x, U64, Shr(x, 64), Low(x, 64));
  }

  // ---------------------------------------------------------------------
  // Bitwise and / or on naturals, bit by bit from the least significant end

  function And(a: nat, b: nat): (r: nat)
    ensures r <= a && r <= b
    decreases a
  {
    if a == 0 || b == 0 then 0
    else 2 * And(a / 2, b / 2) + (if a % 2 == 1 && b % 2 == 1 then 1 else 0)
  }

  function Or(a: nat, b: nat): nat
    decreases a + b
  {
    if a == 0 then b
    else if b == 0 then a
    else 2 * Or(a / 2, b / 2) + (if a % 2 == 1 || b % 2 == 1 then 1 else 0)
  }

  /** Masking with 2^k - 1 keeps the k low bits. */
  lemma {:induction false} AndLowMask(x: nat, k: nat)
    ensures And(x, Pow2(k) - 1) == Low(x, k)
  {
    if k > 0 {
      var p := Pow2(k - 1);
      assert Pow2(k) - 1 == 2 * (p - 1) + 1;
      AndLowMask(x / 2, k - 1);
    }
  }

  /** And with 2^k is nonzero exactly when bit k is set. */
  lemma {:induction false} AndBit(x: nat, k: nat)
    ensures And(x, Pow2(k)) == if Shr(x, k) % 2 == 1 then Pow2(k) else 0
  {
    if k == 0 {
      assert And(x / 2, 0) == 0;
    } else {
      var p := Pow2(k - 1);
      assert Pow2(k) == 2 * p;
      AndBit(x / 2, k - 1);
    }
  }

  lemma {:induction false} AndSelf(x: nat)
    ensures And(x, x) == x
  {
    if x > 0 {
      AndSelf(x / 2);
    }
  }

  /** The source's power-of-two test: x & (x - 1) == 0. */
  lemma {:induction false} AndPredIsPow2(x: nat)
    requires x >= 1
    ensures And(x, x - 1) == 0 <==> IsPow2(x)
  {
    if x == 1 {
    } else if x % 2 == 0 {
      AndPredIsPow2(x / 2);
      assert (x - 1) / 2 == x / 2 - 1 && (x - 1) % 2 == 1;
    } else {
      assert (x - 1) / 2 == x / 2 && (x - 1) % 2 == 0;
      AndSelf(x / 2);
    }
  }

  /** Or-ing in bits above the highest set bit of a is addition. */
  lemma {:induction false} OrDisjoint(a: nat, b: nat, k: nat)
    requires a < Pow2(k)
    ensures Or(a, b * Pow2(k)) == a + b * Pow2(k)
  {
    if a > 0 && b > 0 {
      var p := Pow2(k - 1);
      assert Pow2(k) == p + p;
      MulLeftDistrib(b, p, p);
      var c := b * Pow2(k);
      assert c == 2 * (b * p);
      OrDisjoint(a / 2, b, k - 1);
    }
  }

  // ---------------------------------------------------------------------
  // Logarithms

  /** floor(log2(m)) for m >= 1 (the source's truncated std::log2). */
  function FloorLog2(m: nat): (r: nat)
    requires m >= 1
    ensures Pow2(r) <= m < Pow2(r + 1)
    decreases m
  {
    if m == 1 then 0 else 1 + FloorLog2(m / 2)
  }

  /** The least e with 2^e >= m. */
  function CeilLog2(m: nat): (e: nat)
    ensures Pow2(e) >= m
    ensures e == 0 || Pow2(e - 1) < m
    decreases m
  {
    if m <= 1 then 0 else 1 + CeilLog2((m + 1) / 2)
  }

  lemma CeilLog2Least(m: nat, e: nat)
    requires Pow2(e) >= m
    ensures CeilLog2(m) <= e
  {
  }

  /** A power of two at least m whose half is below m is 2^CeilLog2(m). */
  lemma CeilLog2Is(m: nat, e: nat)
    requires Pow2(e) >= m && (e == 0 || Pow2(e - 1) < m)
    ensures CeilLog2(m) == e
  {
    CeilLog2Least(m, e);
    var c := CeilLog2(m);
    if c < e {
      Pow2Mono(c, e - 1);
    }
  }

  /** If a power of two divides into N = 2^n twice over it is again a power of two. */
  lemma Pow2Div(n: nat, a: nat)
    requires a <= n
    ensures Pow2(n) / Pow2(a) == Pow2(n - a)
  {
    Pow2Add(n - a, a);
    MulDivExact(Pow2(n - a), Pow2(a));
  }

  // ---------------------------------------------------------------------
  // Sums and products of sequences

  function Sum(s: seq<nat>): nat
  {
    if |s| == 0 then 0 else Sum(s[..|s| - 1]) + s[|s| - 1]
  }

  function Product(s: seq<nat>): nat
  {
    if |s| == 0 then 1 else s[0] * Product(s[1..])
  }

  lemma {:induction false} ProductAppend(s: seq<nat>, x: nat)
    ensures Product(s + [x]) == Product(s) * x
  {
    if |s| > 0 {
      assert (s + [x])[1..] == s[1..] + [x];
      ProductAppend(s[1..], x);
    }
  }

  lemma {:induction false} ProductSplit(s: seq<nat>, i: nat)
    requires i <= |s|
    ensures Product(s) == Product(s[..i]) * Product(s[i..])
  {
    if i > 0 {
      ProductSplit(s[1..], i - 1);
      assert s[1..][..i - 1] == s[..i][1..];
      assert s[1..][i - 1..] == s[i..];
      MulAssoc(s[0], Product(s[..i][1..]), Product(s[i..]));
    }
  }

  lemma {:induction false} ProductPositive(s: seq<nat>)
    requires forall i :: 0 <= i < |s| ==> s[i] > 0
    ensures Product(s) > 0
  {
    if |s| > 0 {
      ProductPositive(s[1..]);
    }
  }

  /** (Σ a_i) mod m equals (Σ (a_i mod m)) mod m. */
  lemma {:induction false} SumMod(s: seq<nat>, t: seq<nat>, m: nat)
    requires m > 0 && |s| == |t|
    requires forall i :: 0 <= i < |s| ==> s[i] % m == t[i] % m
    ensures Sum(s) % m == Sum(t) % m
  {
    if |s| > 0 {
      var n := |s| - 1;
      SumMod(s[..n], t[..n], m);
      ModAdd(Sum(s[..n]), s[n], m);
      ModAdd(Sum(t[..n]), t[n], m);
    }
  }

  lemma {:induction false} SumBound(s: seq<nat>, bound: nat)
    requires forall i :: 0 <= i < |s| ==> s[i] < bound
    ensures Sum(s) <= |s| * bound
  {
    if |s| > 0 {
      SumBound(s[..|s| - 1], bound);
    }
  }
}
