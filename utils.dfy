/** src/utils.cpp: the negacyclic shift of one RNS block, the shift of every
    data block of a ciphertext, and the descending RGSW gadget table. */
module Utils {
  import opened Arith
  import opened Rns

  // ---------------------------------------------------------------------
  // negacyclic_shift_poly_coeffmod

  /** A uint64_t result: the value modulo 2^64. */
  function Wrap64(x: int): nat
  {
    (x % U64) as nat
  }

  /** The output index input coefficient i is written to: index_raw & (N-1)
      with index_raw = shift + i, for N a power of two. */
  function Target(i: nat, shift: nat, n: nat): nat
    requires n >= 1
  {
    Rem(shift + i, n)
  }

  /** The input coefficient that lands on output index j. */
  function Source(j: nat, shift: nat, n: nat): nat
    requires n >= 1
  {
    Rem(j + n - Rem(shift, n), n)
  }

  /** What is stored for an input value v whose raw index is raw: v itself
      if bit N of raw is clear or v is zero, else modulus - v. */
  function ShiftedValue(v: nat, raw: nat, n: nat, q: nat): nat
    requires n >= 1
  {
    if Quot(raw, n) % 2 == 0 || v == 0 then v else Wrap64(q - v)
  }

  /** The block negacyclic_shift_poly_coeffmod writes, by output index. */
  function NegacyclicShifted(p: seq<nat>, shift: nat, q: nat): (r: seq<nat>)
    requires |p| >= 1
    ensures |r| == |p|
  {
    seq(|p|, j requires 0 <= j < |p| => ShiftedAt(p, shift, q, j))
  }

  function ShiftedAt(p: seq<nat>, shift: nat, q: nat, j: nat): nat
    requires |p| >= 1 && j < |p|
  {
    var i := Source(j, shift, |p|);
    ShiftedValue(p[i], (shift + i) % U64, |p|, q)
  }

  /** Target and Source are inverse bijections of [0, N). */
  lemma TargetSource(i: nat, j: nat, shift: nat, n: nat)
    requires n >= 1 && i < n && j < n
    ensures Target(i, shift, n) == j <==> Source(j, shift, n) == i
  {
    var s := Rem(shift, n);
    QuotRem(shift, n);
    QuotRemAddMul(s + i, Quot(shift, n), n);
    assert shift + i == (s + i) + Quot(shift, n) * n;
    assert Target(i, shift, n) == Rem(s + i, n);
    if s + i >= n {
      assert Rem(s + i, n) == s + i - n;
    }
    if j + n - s >= n {
      assert Rem(j + n - s, n) == j - s;
    }
  }

  lemma SourceBelow(j: nat, shift: nat, n: nat)
    requires n >= 1
    ensures Source(j, shift, n) < n
  {
  }

  /** 2N divides 2^64 when N is a power of two with 2N <= 2^64. */
  lemma PeriodDivides64(n: nat) returns (m: nat)
    requires n >= 1 && IsPow2(n) && 2 * n <= U64
    ensures U64 == m * (2 * n)
  {
    var k := PowerBelow64(n);
    m := PeriodOfPow2(n, k);
  }

  /** 2^64 = 2^(63-k) * 2^(k+1). */
  lemma PeriodOfPow2(n: nat, k: nat) returns (m: nat)
    requires n == Pow2(k) && k + 1 <= 64
    ensures U64 == m * (2 * n)
  {
    var e := 63 - k;
    Pow2Of64();
    Pow2Add(k + 1, e);
    assert k + 1 + e == 64;
    assert Pow2(k + 1) == 2 * n;
    m := Pow2(e);
  }

  /** N = 2^k with k < 64. */
  lemma PowerBelow64(n: nat) returns (k: nat)
    requires n >= 1 && IsPow2(n) && 2 * n <= U64
    ensures n == Pow2(k) && k + 1 <= 64
  {
    IsPow2Exp(n);
    k := FloorLog2(n);
    Pow2Of64();
    if k + 1 > 64 {
      Pow2Mono(65, k + 1);
    }
  }

  /** Reducing modulo 2^64 first changes neither x mod N nor the parity of
      x div N, because 2N divides 2^64. */
  lemma Mod64ThenN(x: nat, n: nat)
    requires n >= 1 && IsPow2(n) && 2 * n <= U64
    ensures Rem(x % U64, n) == Rem(x, n)
    ensures Quot(x % U64, n) % 2 == Quot(x, n) % 2
  {
    var m := PeriodDivides64(n);
    var r, t := x % U64, x / U64;
    WrapSplit(x, r, t, m, n, t * m);
    ParityShift(r, t * m, n, x);
  }

  /** x = x mod 2^64 + (2 * t*m) * N when 2^64 = m * 2N and t = x div 2^64. */
  lemma WrapSplit(x: nat, r: nat, t: nat, m: nat, n: nat, tm: nat)
    requires r == x % U64 && t == x / U64 && U64 == m * (2 * n) && tm == t * m
    ensures x == r + (2 * tm) * n
  {
    assert x == r + t * U64;
    MulAssoc(t, m, 2 * n);
    assert t * U64 == tm * (2 * n);
    MulAssocComm(tm, 2, n);
  }

  /** Adding an even multiple of N changes neither x mod N nor the parity of
      x div N. */
  lemma ParityShift(r: nat, b: nat, n: nat, x: nat)
    requires n >= 1 && x == r + (2 * b) * n
    ensures Rem(x, n) == Rem(r, n) && Quot(x, n) % 2 == Quot(r, n) % 2
  {
    var a := 2 * b;
    QuotRemAddMul(r, a, n);
    assert x == r + a * n;
  }

  /** The source's mask and bit tests, on a power-of-two N. */
  lemma MaskAndBit(raw: nat, n: nat)
    requires n >= 1 && IsPow2(n)
    ensures And(raw, n - 1) == Rem(raw, n)
    ensures (And(raw, n) == 0) == (Quot(raw, n) % 2 == 0)
  {
    IsPow2Exp(n);
    var k := FloorLog2(n);
    AndLowMask(raw, k);
    AndBit(raw, k);
    ShrLowIsQuotRem(raw, k);
  }

  /** Where iteration i of the loop writes: output t = index_raw & (N-1),
      whose source is i and no other output's. */
  lemma TargetOfRaw(i: nat, shift: nat, n: nat, raw: nat, t: nat)
    requires 1 <= n && IsPow2(n) && 2 * n <= U64 && i < n
    requires raw == (shift + i) % U64 && t == Rem(raw, n)
    ensures t == Target(i, shift, n) && t < n
    ensures Source(t, shift, n) == i
    ensures forall j :: 0 <= j < n && j != t ==> Source(j, shift, n) != i
  {
    Mod64ThenN(shift + i, n);
    TargetSource(i, t, shift, n);
    forall j | 0 <= j < n && j != t
      ensures Source(j, shift, n) != i
    {
      TargetSource(i, j, shift, n);
    }
  }

  /** What iteration i of the loop writes: input i, stored as the shift
      prescribes for its raw index. */
  lemma ShiftStep(poly: seq<nat>, shift: nat, q: nat, i: nat, raw: nat, n: nat, t: nat)
    requires n == |poly| && i < n && t < n && Source(t, shift, n) == i
    requires raw == (shift + i) % U64
    ensures ShiftedAt(poly, shift, q, t) == ShiftedValue(poly[i], raw, n, q)
  {
  }

  /** index_raw++ in uint64_t keeps index_raw == (shift + i) mod 2^64. */
  lemma RawStep(shift: nat, i: nat, raw: nat, i': nat, raw': nat)
    requires raw == (shift + i) % U64 && i' == i + 1 && raw' == (raw + 1) % U64
    ensures raw' == (shift + i') % U64
  {
    IncMod64(shift + i);
  }

  /** index_raw & mask with mask = N - 1, N a power of two. */
  method MaskIndex(raw: nat, n: nat) returns (index: nat)
    requires n >= 1 && IsPow2(n)
    ensures index == Rem(raw, n)
  {
    MaskAndBit(raw, n);
    index := And(raw, n - 1);
  }

  /** Whether index_raw & N is zero, N a power of two. */
  method BitClear(raw: nat, n: nat) returns (clear: bool)
    requires n >= 1 && IsPow2(n)
    ensures clear == (Quot(raw, n) % 2 == 0)
  {
    MaskAndBit(raw, n);
    clear := And(raw, n) == 0;
  }

  /** SEAL's set_uint: copy count words into result at offset. */
  method SetUint(poly: seq<nat>, count: nat, result: array<nat>, offset: nat)
    requires |poly| == count && offset + count <= result.Length
    modifies result
    ensures result[..offset] == old(result[..offset])
    ensures result[offset + count..] == old(result[offset + count..])
    ensures result[offset..offset + count] == poly
  {
    var i := 0;
    while i < count
      invariant 0 <= i <= count
      invariant result[..offset] == old(result[..offset])
      invariant result[offset + count..] == old(result[offset + count..])
      invariant forall j :: 0 <= j < i ==> result[offset + j] == poly[j]
    {
      result[offset + i] := poly[i];
      i := i + 1;
    }
    assert result[offset..offset + count] == poly;
  }

  /** The shift == 0 branch: set_uint copies the block, which is the shift by zero. */
  method CopyUnshifted(poly: seq<nat>, coeffCount: nat, modulus: nat, result: array<nat>, offset: nat)
    requires |poly| == coeffCount && coeffCount >= 1 && 2 * coeffCount <= U64
    requires offset + coeffCount <= result.Length
    modifies result
    ensures result[..offset] == old(result[..offset])
    ensures result[offset + coeffCount..] == old(result[offset + coeffCount..])
    ensures result[offset..offset + coeffCount] == NegacyclicShifted(poly, 0, modulus)
  {
    SetUint(poly, coeffCount, result, offset);
    ShiftByZero(poly, modulus);
  }

  method NegacyclicShiftPolyCoeffmod(poly: seq<nat>, coeffCount: nat, shift: nat, modulus: nat,
                                     result: array<nat>, offset: nat)
    requires |poly| == coeffCount && coeffCount >= 1 && IsPow2(coeffCount) && 2 * coeffCount <= U64
    requires shift < U64 && offset + coeffCount <= result.Length
    modifies result
    ensures result[..offset] == old(result[..offset])
    ensures result[offset + coeffCount..] == old(result[offset + coeffCount..])
    ensures result[offset..offset + coeffCount] == NegacyclicShifted(poly, shift, modulus)
  {
    if shift == 0 {
      CopyUnshifted(poly, coeffCount, modulus, result, offset);
    } else {
      ShiftLoop(poly, coeffCount, shift, modulus, result, offset);
    }
  }

  /** The shift != 0 branch: input i is written to index_raw & (N-1), negated
      when index_raw & N is set, with index_raw = shift + i in uint64_t. */
  method ShiftLoop(poly: seq<nat>, coeffCount: nat, shift: nat, modulus: nat,
                      result: array<nat>, offset: nat)
    requires |poly| == coeffCount && coeffCount >= 1 && IsPow2(coeffCount) && 2 * coeffCount <= U64
    requires shift < U64 && offset + coeffCount <= result.Length
    modifies result
    ensures result[..offset] == old(result[..offset])
    ensures result[offset + coeffCount..] == old(result[offset + coeffCount..])
    ensures result[offset..offset + coeffCount] == NegacyclicShifted(poly, shift, modulus)
  {
    ghost var before := result[..];
    var indexRaw := shift;
    SmallDivMod(shift, U64);
    var i := 0;
    while i < coeffCount
      invariant 0 <= i <= coeffCount
      invariant indexRaw == (shift + i) % U64
      invariant ShiftedUpTo(result[..], offset, poly, shift, modulus, before, i)
    {
      ShiftOne(poly, shift, modulus, result, offset, i, indexRaw, before);
      ghost var raw, i0 := indexRaw, i;
      indexRaw := (indexRaw + 1) % U64;
      i := i + 1;
      RawStep(shift, i0, raw, i, indexRaw);
    }
    forall c | offset <= c < offset + coeffCount
      ensures result[c] == NegacyclicShifted(poly, shift, modulus)[c - offset]
    {
      SourceBelow(c - offset, shift, coeffCount);
    }
    assert result[offset..offset + coeffCount] == NegacyclicShifted(poly, shift, modulus);
    assert result[..offset] == before[..offset];
    assert result[offset + coeffCount..] == before[offset + coeffCount..];
  }

  /** After i iterations: output j holds its shifted value if its source is
      below i and what it held before otherwise; nothing outside the block
      has changed. */
  ghost predicate ShiftedUpTo(cur: seq<nat>, offset: nat, poly: seq<nat>, shift: nat, q: nat,
                              before: seq<nat>, i: nat)
    requires |poly| >= 1
  {
    && |cur| == |before| && offset + |poly| <= |cur|
    && (forall c :: 0 <= c < |cur| && !(offset <= c < offset + |poly|) ==> cur[c] == before[c])
    && (forall c :: offset <= c < offset + |poly| ==>
          cur[c] == if Source(c - offset, shift, |poly|) < i then ShiftedAt(poly, shift, q, c - offset) else before[c])
  }

  /** Writing the shifted value of input i at its target extends the
      invariant by one input. */
  lemma ShiftedUpToStep(cur: seq<nat>, cur': seq<nat>, offset: nat, poly: seq<nat>, shift: nat, q: nat,
                        before: seq<nat>, i: nat, t: nat, v: nat)
    requires |poly| >= 1 && i < |poly| && t < |poly|
    requires ShiftedUpTo(cur, offset, poly, shift, q, before, i)
    requires Source(t, shift, |poly|) == i
    requires forall j :: 0 <= j < |poly| && j != t ==> Source(j, shift, |poly|) != i
    requires v == ShiftedAt(poly, shift, q, t) && cur' == cur[offset + t := v]
    ensures ShiftedUpTo(cur', offset, poly, shift, q, before, i + 1)
  {
    forall c | offset <= c < offset + |poly|
      ensures cur'[c] == if Source(c - offset, shift, |poly|) < i + 1 then ShiftedAt(poly, shift, q, c - offset) else before[c]
    {
      var j := c - offset;
      if j != t {
        assert Source(j, shift, |poly|) != i;
      }
    }
  }

  /** One iteration of the loop: coefficient i goes to index_raw & mask. */
  method ShiftOne(poly: seq<nat>, shift: nat, modulus: nat, result: array<nat>, offset: nat,
                  i: nat, indexRaw: nat, ghost before: seq<nat>)
    requires 1 <= |poly| && IsPow2(|poly|) && 2 * |poly| <= U64 && i < |poly|
    requires indexRaw == (shift + i) % U64
    requires ShiftedUpTo(result[..], offset, poly, shift, modulus, before, i)
    modifies result
    ensures ShiftedUpTo(result[..], offset, poly, shift, modulus, before, i + 1)
  {
    var n := |poly|;
    var index := MaskIndex(indexRaw, n);
    var clear := BitClear(indexRaw, n);
    TargetOfRaw(i, shift, n, indexRaw, index);
    ShiftStep(poly, shift, modulus, i, indexRaw, n, index);
    var v := if clear || poly[i] == 0 then poly[i] else Wrap64(modulus - poly[i]);
    ghost var cur := result[..];
    result[offset + index] := v;
    ShiftedUpToStep(cur, result[..], offset, poly, shift, modulus, before, i, index, v);
  }

  lemma IncMod64(x: nat)
    ensures (x % U64 + 1) % U64 == (x + 1) % U64
  {
    var q, r := x / U64, x % U64;
    assert x + 1 == (r + 1) + q * U64;
  }

  /** A zero shift copies the block. */
  lemma ShiftByZero(p: seq<nat>, q: nat)
    requires 1 <= |p| < U64
    ensures NegacyclicShifted(p, 0, q) == p
  {
    var n := |p|;
    forall j | 0 <= j < n
      ensures ShiftedAt(p, 0, q, j) == p[j]
    {
      QuotRemAddMul(j, 1, n);
      assert Source(j, 0, n) == j;
      SmallDivMod(j, U64);
    }
  }

  /** Input coefficient i lands on output index (i + shift) mod N. */
  lemma ShiftLandsAt(p: seq<nat>, shift: nat, q: nat, i: nat)
    requires |p| >= 1 && i < |p|
    ensures Target(i, shift, |p|) < |p|
    ensures NegacyclicShifted(p, shift, q)[Target(i, shift, |p|)]
         == ShiftedValue(p[i], (shift + i) % U64, |p|, q)
  {
    var j := Target(i, shift, |p|);
    TargetSource(i, j, shift, |p|);
    ShiftedFrom(p, shift, q, i, j);
  }

  lemma ShiftedFrom(p: seq<nat>, shift: nat, q: nat, i: nat, j: nat)
    requires |p| >= 1 && i < |p| && j < |p| && Source(j, shift, |p|) == i
    ensures NegacyclicShifted(p, shift, q)[j] == ShiftedValue(p[i], (shift + i) % U64, |p|, q)
  {
    assert NegacyclicShifted(p, shift, q)[j] == ShiftedAt(p, shift, q, j);
  }

  /** Inputs below q stay below q. */
  lemma ShiftedBelow(p: seq<nat>, shift: nat, q: nat)
    requires |p| >= 1 && q < U64
    requires forall i :: 0 <= i < |p| ==> p[i] < q
    ensures forall j :: 0 <= j < |p| ==> NegacyclicShifted(p, shift, q)[j] < q
  {
    forall j | 0 <= j < |p|
      ensures NegacyclicShifted(p, shift, q)[j] < q
    {
      var i := Source(j, shift, |p|);
      if p[i] > 0 {
        SmallDivMod(q - p[i], U64);
      }
    }
  }

  // ---------------------------------------------------------------------
  // The reference: multiplication by x in Z_q[x]/(x^N + 1)

  /** Negation modulo q of a reduced value. */
  function Neg(v: nat, q: nat): nat
    requires v <= q
  {
    if v == 0 then 0 else q - v
  }

  /** x * p(x) mod (x^N + 1): the top coefficient wraps around negated. */
  function MulX(p: seq<nat>, q: nat): (r: seq<nat>)
    requires |p| >= 1 && forall i :: 0 <= i < |p| ==> p[i] <= q
    ensures |r| == |p|
  {
    [Neg(p[|p| - 1], q)] + p[..|p| - 1]
  }

  predicate Below(p: seq<nat>, q: nat)
  {
    forall i :: 0 <= i < |p| ==> p[i] < q
  }

  lemma MulXBelow(p: seq<nat>, q: nat)
    requires |p| >= 1 && Below(p, q)
    ensures Below(MulX(p, q), q)
  {
  }

  /** x^k * p(x) mod (x^N + 1). */
  function MulXPow(p: seq<nat>, k: nat, q: nat): (r: seq<nat>)
    requires |p| >= 1 && Below(p, q)
    ensures |r| == |p| && Below(r, q)
  {
    if k == 0 then p
    else
      var r := MulXPow(p, k - 1, q);
      MulXBelow(r, q);
      MulX(r, q)
  }

  /** The closed form of x^s * p(x): output j holds input Source(j), negated
      when s + Source(j) has wrapped an odd number of times. */
  function Rot(p: seq<nat>, s: nat, q: nat): (r: seq<nat>)
    requires |p| >= 1 && Below(p, q)
    ensures |r| == |p|
  {
    seq(|p|, j requires 0 <= j < |p| => RotAt(p, s, q, j))
  }

  function RotAt(p: seq<nat>, s: nat, q: nat, j: nat): nat
    requires |p| >= 1 && Below(p, q) && j < |p|
  {
    var i := Source(j, s, |p|);
    if Quot(s + i, |p|) % 2 == 1 then Neg(p[i], q) else p[i]
  }

  lemma RotBelow(p: seq<nat>, s: nat, q: nat)
    requires |p| >= 1 && Below(p, q)
    ensures Below(Rot(p, s, q), q)
  {
  }

  lemma RotZero(p: seq<nat>, q: nat)
    requires |p| >= 1 && Below(p, q)
    ensures Rot(p, 0, q) == p
  {
    var n := |p|;
    forall j | 0 <= j < n
      ensures Rot(p, 0, q)[j] == p[j]
    {
      QuotRemAddMul(j, 1, n);
      assert Source(j, 0, n) == j;
    }
  }

  /** Source(j) is the input whose target is j. */
  lemma SourceSum(j: nat, s: nat, n: nat)
    requires n >= 1 && j < n
    ensures Rem(s + Source(j, s, n), n) == j
  {
    SourceBelow(j, s, n);
    TargetSource(Source(j, s, n), j, s, n);
  }

  /** Output j of x^(s+1) * p is output j-1 of x^s * p, or output N-1
      negated for j = 0. */
  lemma RotAtStep(p: seq<nat>, s: nat, q: nat, j: nat)
    requires |p| >= 1 && Below(p, q) && j < |p|
    ensures j == 0 ==> RotAt(p, s + 1, q, j) == Neg(RotAt(p, s, q, |p| - 1), q)
    ensures j > 0 ==> RotAt(p, s + 1, q, j) == RotAt(p, s, q, j - 1)
  {
    var n := |p|;
    var jp := if j == 0 then n - 1 else j - 1;
    var ip := Source(jp, s, n);
    SourceBelow(jp, s, n);
    SourceSum(jp, s, n);
    QuotRemSucc(s + ip, n);
    assert s + ip + 1 == (s + 1) + ip;
    assert Target(ip, s + 1, n) == j;
    TargetSource(ip, j, s + 1, n);
  }

  lemma RotStep(p: seq<nat>, s: nat, q: nat)
    requires |p| >= 1 && Below(p, q)
    ensures Below(Rot(p, s, q), q)
    ensures MulX(Rot(p, s, q), q) == Rot(p, s + 1, q)
  {
    var n := |p|;
    var a := Rot(p, s, q);
    var b := Rot(p, s + 1, q);
    RotBelow(p, s, q);
    forall j | 0 <= j < n
      ensures MulX(a, q)[j] == b[j]
    {
      RotAtStep(p, s, q, j);
    }
  }

  lemma {:induction false} RotIsMulXPow(p: seq<nat>, s: nat, q: nat)
    requires |p| >= 1 && Below(p, q)
    ensures MulXPow(p, s, q) == Rot(p, s, q)
  {
    if s == 0 {
      RotZero(p, q);
    } else {
      RotIsMulXPow(p, s - 1, q);
      RotStep(p, s - 1, q);
      var r := MulXPow(p, s - 1, q);
      assert MulXPow(p, s, q) == MulX(r, q);
    }
  }

  lemma {:induction false} MulXPowAdd(p: seq<nat>, a: nat, b: nat, q: nat)
    requires |p| >= 1 && Below(p, q)
    ensures MulXPow(MulXPow(p, a, q), b, q) == MulXPow(p, a + b, q)
  {
    if b > 0 {
      MulXPowAdd(p, a, b - 1, q);
    }
  }

  lemma RotAtPeriod(p: seq<nat>, s: nat, q: nat, j: nat)
    requires |p| >= 1 && Below(p, q) && j < |p|
    ensures RotAt(p, s + 2 * |p|, q, j) == RotAt(p, s, q, j)
  {
    var n := |p|;
    QuotRemAddMul(s, 2, n);
    var i := Source(j, s, n);
    assert Source(j, s + 2 * n, n) == i;
    QuotRemAddMul(s + i, 2, n);
    assert s + 2 * n + i == (s + i) + 2 * n;
  }

  lemma RotPeriod(p: seq<nat>, s: nat, q: nat)
    requires |p| >= 1 && Below(p, q)
    ensures Rot(p, s + 2 * |p|, q) == Rot(p, s, q)
  {
    forall j | 0 <= j < |p|
      ensures Rot(p, s + 2 * |p|, q)[j] == Rot(p, s, q)[j]
    {
      RotAtPeriod(p, s, q, j);
    }
  }

  lemma {:induction false} RotPeriods(p: seq<nat>, k: nat, q: nat)
    requires |p| >= 1 && Below(p, q)
    ensures Rot(p, k * (2 * |p|), q) == p
  {
    RotPeriodsAt(p, k, q, k * (2 * |p|));
  }

  lemma {:induction false} RotPeriodsAt(p: seq<nat>, k: nat, q: nat, s: nat)
    requires |p| >= 1 && Below(p, q) && s == k * (2 * |p|)
    ensures Rot(p, s, q) == p
  {
    if k == 0 {
      assert s == 0;
      RotZero(p, q);
    } else {
      var s0 := (k - 1) * (2 * |p|);
      RotPeriodsAt(p, k - 1, q, s0);
      RotPeriodStep(p, k, q, s0, s);
    }
  }

  lemma RotPeriodStep(p: seq<nat>, k: nat, q: nat, s: nat, s': nat)
    requires |p| >= 1 && Below(p, q) && k >= 1
    requires s == (k - 1) * (2 * |p|) && s' == k * (2 * |p|)
    ensures Rot(p, s', q) == Rot(p, s, q)
  {
    MulSuccLeft(k - 1, 2 * |p|);
    RotPeriod(p, s, q);
  }

  lemma ShiftedAtIsRotAt(p: seq<nat>, shift: nat, q: nat, j: nat)
    requires |p| >= 1 && IsPow2(|p|) && 2 * |p| <= U64
    requires q < U64 && Below(p, q) && j < |p|
    ensures ShiftedAt(p, shift, q, j) == RotAt(p, shift, q, j)
  {
    var n := |p|;
    var i := Source(j, shift, n);
    SourceBelow(j, shift, n);
    var raw := (shift + i) % U64;
    Mod64ThenN(shift + i, n);
    ShiftedValueIsNeg(p[i], raw, shift + i, n, q);
  }

  /** The stored value is the input negated exactly when bit N of the raw
      index is set. */
  lemma ShiftedValueIsNeg(v: nat, raw: nat, x: nat, n: nat, q: nat)
    requires n >= 1 && v < q < U64 && Quot(raw, n) % 2 == Quot(x, n) % 2
    ensures ShiftedValue(v, raw, n, q) == if Quot(x, n) % 2 == 1 then Neg(v, q) else v
  {
    if v > 0 {
      SmallDivMod(q - v, U64);
    }
  }

  /** The source's shift of a reduced block is multiplication by x^shift. */
  lemma ShiftIsMulXPow(p: seq<nat>, shift: nat, q: nat)
    requires |p| >= 1 && IsPow2(|p|) && 2 * |p| <= U64
    requires q < U64 && Below(p, q)
    ensures NegacyclicShifted(p, shift, q) == MulXPow(p, shift, q)
  {
    RotIsMulXPow(p, shift, q);
    forall j | 0 <= j < |p|
      ensures NegacyclicShifted(p, shift, q)[j] == Rot(p, shift, q)[j]
    {
      ShiftedAtIsRotAt(p, shift, q, j);
    }
  }

  /** A shift by 2^64 - c, which is what a size_t argument of -c becomes,
      is undone by multiplying with x^c: it is multiplication by x^(-c). */
  lemma NegativeShiftInverts(p: seq<nat>, c: nat, q: nat)
    requires |p| >= 1 && IsPow2(|p|) && 2 * |p| <= U64
    requires q < U64 && Below(p, q) && c <= U64
    ensures MulXPow(NegacyclicShifted(p, U64 - c, q), c, q) == p
  {
    ShiftIsMulXPow(p, U64 - c, q);
    MulXPowAdd(p, U64 - c, c, q);
    RotIsMulXPow(p, U64, q);
    var m := PeriodDivides64(|p|);
    RotPeriods(p, m, q);
  }

  // ---------------------------------------------------------------------
  // shift_polynomial

  /** Word c of a polynomial after shift_polynomial: the first count blocks
      shifted, each with its own modulus, the rest copied. */
  function ShiftedWord(p: Poly, moduli: seq<nat>, count: nat, n: nat, shift: nat, c: nat): nat
    requires n >= 1 && count <= |moduli| && count * n <= |p| && c < |p|
  {
    if c < count * n then
      var m := Block(n, count, c);
      BlockSplit(n, count, c);
      NegacyclicShifted(p[m * n..m * n + n], shift, moduli[m])[c % n]
    else p[c]
  }

  /** Word m*n + k, in one of the first count blocks, is output k of block
      m's shift. */
  lemma ShiftedWordIn(p: Poly, moduli: seq<nat>, count: nat, n: nat, shift: nat, m: nat, k: nat, c: nat)
    requires n >= 1 && count <= |moduli| && count * n <= |p| && m < count && k < n && c == m * n + k
    ensures c < count * n && m * n + n <= |p|
    ensures ShiftedWord(p, moduli, count, n, shift, c) == NegacyclicShifted(p[m * n..m * n + n], shift, moduli[m])[k]
  {
    BlockWord(n, count, m, k);
    MulSuccLeft(m, n);
    MulMono(m + 1, count, n);
  }

  function ShiftedPoly(p: Poly, moduli: seq<nat>, count: nat, n: nat, shift: nat): (r: Poly)
    requires n >= 1 && count <= |moduli| && count * n <= |p|
    ensures |r| == |p|
  {
    seq(|p|, c requires 0 <= c < |p| => ShiftedWord(p, moduli, count, n, shift, c))
  }

  /** Shift one polynomial's first count blocks into a copy of it. */
  method ShiftBlocks(p: Poly, moduli: seq<nat>, count: nat, n: nat, shift: nat) returns (r: Poly)
    requires n >= 1 && IsPow2(n) && 2 * n <= U64 && shift < U64
    requires count <= |moduli| && count * n <= |p|
    ensures r == ShiftedPoly(p, moduli, count, n, shift)
  {
    var dest := new nat[|p|](i requires 0 <= i < |p| => p[i]);
    var j, lo := 0, 0;
    while j < count
      invariant 0 <= j <= count && lo == j * n
      invariant BlocksDone(dest[..], p, moduli, count, n, shift, lo)
    {
      MulSuccLeft(j, n);
      MulMono(j + 1, count, n);
      ghost var before := dest[..];
      NegacyclicShiftPolyCoeffmod(p[lo..lo + n], n, shift, moduli[j], dest, lo);
      BlockStep(before, dest[..], p, moduli, count, n, shift, j, lo);
      j, lo := j + 1, lo + n;
    }
    r := dest[..];
    assert BlocksDone(r, p, moduli, count, n, shift, count * n);
  }

  /** The first w words of d (whole blocks) are shifted, the rest are p's. */
  ghost predicate BlocksDone(d: seq<nat>, p: Poly, moduli: seq<nat>, count: nat, n: nat, shift: nat, w: nat)
    requires n >= 1 && count <= |moduli| && count * n <= |p|
  {
    |d| == |p| &&
    forall c :: 0 <= c < |p| ==> d[c] == if c < w then ShiftedWord(p, moduli, count, n, shift, c) else p[c]
  }

  /** Shifting block j, in place and leaving the rest alone, extends the
      shifted prefix by one block. */
  lemma BlockStep(before: seq<nat>, after: seq<nat>, p: Poly, moduli: seq<nat>, count: nat, n: nat,
                  shift: nat, j: nat, lo: nat)
    requires n >= 1 && count <= |moduli| && count * n <= |p| && j < count
    requires lo == j * n && lo + n <= |p| && |after| == |p|
    requires BlocksDone(before, p, moduli, count, n, shift, lo)
    requires after[..lo] == before[..lo] && after[lo + n..] == before[lo + n..]
    requires after[lo..lo + n] == NegacyclicShifted(p[lo..lo + n], shift, moduli[j])
    ensures BlocksDone(after, p, moduli, count, n, shift, lo + n)
  {
    forall c | 0 <= c < |p|
      ensures after[c] == if c < lo + n then ShiftedWord(p, moduli, count, n, shift, c) else p[c]
    {
      if c < lo {
        assert after[c] == after[..lo][c] == before[..lo][c];
      } else if c < lo + n {
        ShiftedWordIn(p, moduli, count, n, shift, j, c - lo, c);
        assert after[c] == after[lo..lo + n][c - lo];
      } else {
        assert after[c] == after[lo + n..][c - (lo + n)] == before[lo + n..][c - (lo + n)];
      }
    }
  }

  /** shift_polynomial: destination starts as a copy of encrypted; block j of
      polynomial i, for j below |coeff_modulus| - 1, becomes the negacyclic
      shift of encrypted's block. */
  method ShiftPolynomial(n: nat, coeffModulus: seq<nat>, encrypted: Ct, index: nat) returns (destination: Ct)
    requires n >= 1 && IsPow2(n) && 2 * n <= U64 && index < U64
    requires |coeffModulus| >= 1
    requires forall i :: 0 <= i < |encrypted| ==> (|coeffModulus| - 1) * n <= |encrypted[i]|
    ensures |destination| == |encrypted|
    ensures forall i :: 0 <= i < |encrypted| ==>
      destination[i] == ShiftedPoly(encrypted[i], coeffModulus, |coeffModulus| - 1, n, index)
  {
    var count := |coeffModulus| - 1;
    destination := encrypted;
    var i := 0;
    while i < |encrypted|
      invariant 0 <= i <= |encrypted| && |destination| == |encrypted|
      invariant forall i' :: 0 <= i' < i ==>
        destination[i'] == ShiftedPoly(encrypted[i'], coeffModulus, count, n, index)
    {
      var shifted := ShiftBlocks(encrypted[i], coeffModulus, count, n, index);
      destination := destination[i := shifted];
      i := i + 1;
    }
  }

  /** In a data-level context (one more modulus in the parameter list than
      in the context), every block of a reduced polynomial is shifted and
      the result is reduced. */
  lemma ShiftedPolyReduced(ctx: Context, p: Poly, special: nat, shift: nat)
    requires Valid(ctx) && Reduced(ctx, p)
    ensures Reduced(ctx, ShiftedPoly(p, ctx.moduli + [special], K(ctx), ctx.n, shift))
  {
    var n := ctx.n;
    var r := ShiftedPoly(p, ctx.moduli + [special], K(ctx), n, shift);
    forall c | 0 <= c < |p|
      ensures r[c] < ModAt(ctx, c)
    {
      var m := Block(n, K(ctx), c);
      BlockSplit(n, K(ctx), c);
      ShiftedBlockReduced(ctx, p, special, shift, m, m * n);
    }
  }

  /** Block m of a reduced polynomial stays below q_m when shifted. */
  lemma ShiftedBlockReduced(ctx: Context, p: Poly, special: nat, shift: nat, m: nat, lo: nat)
    requires Valid(ctx) && Reduced(ctx, p) && m < K(ctx) && lo == m * ctx.n
    ensures forall c :: lo <= c < lo + ctx.n && c < |p| ==>
      ShiftedWord(p, ctx.moduli + [special], K(ctx), ctx.n, shift, c) < ctx.moduli[m]
  {
    var n, moduli := ctx.n, ctx.moduli + [special];
    BlockOf(ctx, m, 0);
    MulSuccLeft(m, n);
    MulMono(m + 1, K(ctx), n);
    var blk := p[lo..lo + n];
    forall i | 0 <= i < n
      ensures blk[i] < moduli[m]
    {
      BlockOf(ctx, m, i);
    }
    ShiftedBelow(blk, shift, moduli[m]);
    forall c | lo <= c < lo + n && c < |p|
      ensures ShiftedWord(p, moduli, K(ctx), n, shift, c) < ctx.moduli[m]
    {
      ShiftedWordIn(p, moduli, K(ctx), n, shift, m, c - lo, c);
    }
  }

  // ---------------------------------------------------------------------
  // gsw_gadget

  /** The value after n steps of v := ((v << b) mod wrap) mod q from v = 1,
      wrap = 2^width: the loops of gsw_gadget (width 128), of the pow2 table
      in encrypt_plain_to_gsw (width 128) and of gen_gadget (width 64). */
  function ShiftModPow(b: nat, n: nat, q: nat, wrap: nat): nat
    requires q > 0 && wrap > 0
  {
    if n == 0 then 1 else ((ShiftModPow(b, n - 1, q, wrap) * Pow2(b)) % wrap) % q
  }

  lemma ModMulLeft(x: nat, y: nat, m: nat)
    requires m > 0
    ensures ((x % m) * y) % m == (x * y) % m
  {
    ModMulMod(x, y, m);
    ModMulMod(x % m, y, m);
    SmallDivMod(x % m, m);
  }

  /** Without overflow of the shift, n steps give 2^(b*n) mod q. */
  lemma {:induction false} ShiftModPowClosed(b: nat, n: nat, q: nat, wrap: nat)
    requires 2 <= q && q * Pow2(b) <= wrap
    ensures ShiftModPow(b, n, q, wrap) == Pow2(b * n) % q
  {
    if n == 0 {
      assert Pow2(0) == 1;
      SmallDivMod(1, q);
    } else {
      ShiftModPowClosed(b, n - 1, q, wrap);
      var v := ShiftModPow(b, n - 1, q, wrap);
      MulSucc(n, b);
      ShiftModStep(v, b, q, b * (n - 1), b * n, Pow2(b), wrap);
    }
  }

  /** One step of the loop from v = 2^e mod q: without overflow it gives
      2^(e + b) mod q. */
  lemma ShiftModStep(v: nat, b: nat, q: nat, e: nat, e': nat, pb: nat, pw: nat)
    requires 2 <= q && pb == Pow2(b) && q * pb <= pw && e' == e + b
    requires v == Pow2(e) % q
    ensures ((v * pb) % pw) % q == Pow2(e') % q
  {
    MulMono(v, q - 1, pb);
    MulSubOneLeft(q, pb);
    SmallDivMod(v * pb, pw);
    ModMulLeft(Pow2(e), pb, q);
    Pow2Add(e, b);
  }

  /** gsw_gadget: coeff_mod_count rows of l powers each, filled from the last
      column backwards with pow := (pow << base_log2) % q_i in 128 bits. */
  method GswGadget(l: nat, baseLog2: nat, coeffModCount: nat, coeffModulus: seq<nat>) returns (gadget: seq<seq<nat>>)
    requires baseLog2 < 128 && coeffModCount <= |coeffModulus|
    requires forall i :: 0 <= i < coeffModCount ==> coeffModulus[i] >= 1
    ensures |gadget| == coeffModCount
    ensures forall i :: 0 <= i < coeffModCount ==> |gadget[i]| == l
    ensures forall i, j :: 0 <= i < coeffModCount && 0 <= j < l ==>
      gadget[i][j] == ShiftModPow(baseLog2, l - 1 - j, coeffModulus[i], U128)
    ensures forall i :: 0 <= i < coeffModCount && l >= 1 ==> gadget[i][l - 1] == 1
    ensures forall i, j :: 0 <= i < coeffModCount && 0 <= j < l - 1 ==>
      gadget[i][j] == ((gadget[i][j + 1] * Pow2(baseLog2)) % U128) % coeffModulus[i]
  {
    Pow2Of64();
    gadget := [];
    var i := 0;
    while i < coeffModCount
      invariant 0 <= i <= coeffModCount && |gadget| == i
      invariant forall i' :: 0 <= i' < i ==> |gadget[i']| == l
      invariant forall i', j :: 0 <= i' < i && 0 <= j < l ==>
        gadget[i'][j] == ShiftModPow(baseLog2, l - 1 - j, coeffModulus[i'], U128)
    {
      var mod := coeffModulus[i];
      var row := seq(l, _ => 0);
      var pow := 1;
      var j := l;
      while j > 0
        invariant 0 <= j <= l && |row| == l
        invariant pow == ShiftModPow(baseLog2, l - j, mod, U128)
        invariant forall j' :: j <= j' < l ==> row[j'] == ShiftModPow(baseLog2, l - 1 - j', mod, U128)
      {
        j := j - 1;
        row := row[j := pow];
        pow := ((pow * Pow2(baseLog2)) % U128) % mod;
      }
      gadget := gadget + [row];
      i := i + 1;
    }
  }

  /** With q below 2^64 and base_log2 at most 64 the 128-bit shift never
      overflows, so n steps give 2^(base_log2 * n) mod q: gadget[i][j] of
      gsw_gadget is 2^(base_log2 * (l-1-j)) mod q_i, and pow2[i][j] of
      encrypt_plain_to_gsw is 2^(base_log2 * j) mod q_i. */
  lemma ShiftModPow128Closed(b: nat, n: nat, q: nat)
    requires 2 <= q < U64 && b <= 64
    ensures ShiftModPow(b, n, q, U128) == Pow2(b * n) % q
  {
    Pow2Of64();
    Pow2Mono(b, 64);
    MulMono(q, U64, Pow2(b));
    MulMono(Pow2(b), U64, U64);
    assert U64 * U64 == U128;
    ShiftModPowClosed(b, n, q, U128);
  }
}
