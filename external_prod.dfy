/** src/external_prod.cpp: gadget decomposition of a two-polynomial
    ciphertext, the external product with a GSW ciphertext, encryption of a
    plaintext as a GSW ciphertext, and the conversion of l expanded query
    ciphertexts into a GSW ciphertext. A GSW ciphertext is a sequence of
    rows, each the N*K words of polynomial 0 followed by those of
    polynomial 1. */
module ExternalProd {
  import opened Arith
  import opened Digits
  import opened Rns
  import opened Utils
  import opened Accum

  /** The parameters a GSWEval object carries: l rows per polynomial and
      the digit width base_log2 (data_gsw and key_gsw are two such values). */
  datatype Eval = Eval(l: nat, baseLog2: nat)

  /** 2l rows of 2*N*K words. */
  predicate IsGsw(ctx: Context, e: Eval, gsw: seq<seq<nat>>)
  {
    |gsw| == 2 * e.l && forall j :: 0 <= j < |gsw| ==> |gsw[j]| == 2 * Len(ctx)
  }

  // ---------------------------------------------------------------------
  // decomp_rlwe

  /** The digit decomp_rlwe keeps for composed value v in row p: v shifted
      right by p * base_log2 over all K words, the low word masked with
      2^base_log2 - 1, the higher words cleared. */
  function DecompDigit(v: nat, p: nat, b: nat): (d: nat)
    ensures d <= Pow2(b) - 1
  {
    And(Shr(v, p * b) % U64, Pow2(b) - 1)
  }

  /** Masking the low word of y with 2^b - 1, b <= 64, keeps the b low bits of y. */
  lemma LowWordMask(y: nat, b: nat)
    requires b <= 64
    ensures And(y % U64, Pow2(b) - 1) == Low(y, b)
  {
    AndLowMask(y % U64, b);
    Low64(y);
    LowLow(y, b, 64);
  }

  /** For base_log2 <= 64 the mask lies inside the low word and the digit is
      the ordinary base-2^base_log2 digit p of v. */
  lemma DecompDigitIsDigit(v: nat, p: nat, b: nat)
    requires b <= 64
    ensures DecompDigit(v, p, b) == Digit(v, p, b)
  {
    LowWordMask(Shr(v, p * b), b);
  }

  /** Digits 0 .. l-1 of v as decomp_rlwe extracts them, least significant first. */
  function DigitsAt(v: nat, l: nat, b: nat): (ds: seq<nat>)
    ensures |ds| == l
  {
    seq(l, p requires 0 <= p < l => DecompDigit(v, p, b))
  }

  /** Every digit is below 2^base_log2. */
  lemma DigitsAtBelow(v: nat, l: nat, b: nat)
    ensures AllBelow(DigitsAt(v, l, b), Pow2(b))
  {
  }

  /** Sum over p of digit_p * 2^(p * base_log2) is v when v < 2^(l * base_log2). */
  lemma DigitsReconstruct(v: nat, l: nat, b: nat)
    requires b <= 64 && v < Pow2(l * b)
    ensures WeightedSum(DigitsAt(v, l, b), b) == v
  {
    forall p | 0 <= p < l
      ensures DigitsAt(v, l, b)[p] == DigitsOf(v, l, b)[p]
    {
      DecompDigitIsDigit(v, p, b);
    }
    assert DigitsAt(v, l, b) == DigitsOf(v, l, b);
    LeNumDigitsOf(v, l, b);
    LeNumIsWeightedSum(DigitsOf(v, l, b), b);
  }

  /** Digit p of each of N composed values. */
  function DigitRow(vals: seq<nat>, p: nat, b: nat): (r: seq<nat>)
    ensures |r| == |vals|
  {
    seq(|vals|, k requires 0 <= k < |vals| => DecompDigit(vals[k], p, b))
  }

  /** Row p of polynomial j: ct[j] composed, digit p taken, decomposed back
      into residues. */
  function DecompRow(ctx: Context, s: Seal, ct: Ct, j: nat, p: nat, b: nat): (r: Poly)
    requires Valid(ctx) && SealValid(ctx, s) && IsCt2(ctx, ct) && j < 2
    ensures Reduced(ctx, r)
  {
    Decompose(ctx, DigitRow(s.compose(ct[j]), p, b))
  }

  /** Row r of decomp_rlwe's output: digit r of polynomial 0 for r < l,
      digit r - l of polynomial 1 after that. */
  function DecompRowAt(ctx: Context, s: Seal, ct: Ct, e: Eval, r: nat): (row: Poly)
    requires Valid(ctx) && SealValid(ctx, s) && IsCt2(ctx, ct)
    ensures Reduced(ctx, row)
  {
    if r < e.l then DecompRow(ctx, s, ct, 0, r, e.baseLog2)
    else DecompRow(ctx, s, ct, 1, r - e.l, e.baseLog2)
  }

  /** decomp_rlwe's output: the l rows of polynomial 0, then those of polynomial 1. */
  function DecompRows(ctx: Context, s: Seal, ct: Ct, e: Eval): (rows: seq<Poly>)
    requires Valid(ctx) && SealValid(ctx, s) && IsCt2(ctx, ct)
    ensures |rows| == 2 * e.l
    ensures forall r :: 0 <= r < |rows| ==> Reduced(ctx, rows[r])
  {
    seq(2 * e.l, r requires 0 <= r < 2 * e.l => DecompRowAt(ctx, s, ct, e, r))
  }

  /** Row j*l + p is digit p of polynomial j: all rows of polynomial 0 come first. */
  lemma DecompRowsOrder(ctx: Context, s: Seal, ct: Ct, e: Eval, j: nat, p: nat)
    requires Valid(ctx) && SealValid(ctx, s) && IsCt2(ctx, ct) && j < 2 && p < e.l
    ensures j * e.l + p < 2 * e.l
    ensures DecompRows(ctx, s, ct, e)[j * e.l + p] == DecompRow(ctx, s, ct, j, p, e.baseLog2)
  {
    var r := j * e.l + p;
    if j == 0 {
      assert r == p;
    } else {
      assert r == e.l + p;
    }
    assert DecompRows(ctx, s, ct, e)[r] == DecompRowAt(ctx, s, ct, e, r);
  }

  /** The (v >> shift_amount) & mask of one composed value, mask = 2^b - 1. */
  method ShiftMask(x: nat, p: nat, b: nat, shiftAmount: nat, mask: nat) returns (d: nat)
    requires shiftAmount == p * b && mask == Pow2(b) - 1
    ensures d == DecompDigit(x, p, b)
  {
    d := And(Shr(x, shiftAmount) % U64, mask);
  }

  /** One row of decomp_rlwe: a copy of the composed data, every value
      shifted and masked in place. */
  method DigitRowInPlace(data: seq<nat>, p: nat, b: nat) returns (r: seq<nat>)
    ensures r == DigitRow(data, p, b)
  {
    var row := new nat[|data|](k requires 0 <= k < |data| => data[k]);
    var shiftAmount := p * b;
    var mask := Pow2(b) - 1;
    var k := 0;
    while k < |data|
      invariant 0 <= k <= |data|
      invariant forall k' :: 0 <= k' < |data| ==>
        row[k'] == if k' < k then DecompDigit(data[k'], p, b) else data[k']
    {
      row[k] := ShiftMask(row[k], p, b, shiftAmount, mask);
      k := k + 1;
    }
    r := row[..];
  }

  /** GSWEval::decomp_rlwe. The shift by p * base_log2 must stay below the
      64*K bits of a composed value for every row (right_shift_uint reads
      past the value otherwise), and the 128-bit base needs base_log2 < 128. */
  method DecompRlwe(ctx: Context, s: Seal, ct: Ct, e: Eval) returns (output: seq<Poly>)
    requires Valid(ctx) && SealValid(ctx, s) && IsCt2(ctx, ct)
    requires e.baseLog2 < 128 && (e.l == 0 || (e.l - 1) * e.baseLog2 < 64 * K(ctx))
    ensures output == DecompRows(ctx, s, ct, e)
  {
    output := [];
    var j := 0;
    while j < 2
      invariant 0 <= j <= 2 && |output| == if j == 0 then 0 else if j == 1 then e.l else 2 * e.l
      invariant forall r :: 0 <= r < |output| ==> output[r] == DecompRowAt(ctx, s, ct, e, r)
    {
      var data := s.compose(ct[j]);
      var p := 0;
      while p < e.l
        invariant 0 <= p <= e.l && |output| == (if j == 0 then 0 else e.l) + p
        invariant forall r :: 0 <= r < |output| ==> output[r] == DecompRowAt(ctx, s, ct, e, r)
      {
        var row := DigitRowInPlace(data, p, e.baseLog2);
        output := output + [Decompose(ctx, row)];
        p := p + 1;
      }
      j := j + 1;
    }
  }

  /** Row p of polynomial j at word c, over all p < l. */
  function Column(ctx: Context, s: Seal, ct: Ct, j: nat, l: nat, b: nat, c: nat): (col: seq<nat>)
    requires Valid(ctx) && SealValid(ctx, s) && IsCt2(ctx, ct) && j < 2 && c < Len(ctx)
    ensures |col| == l
  {
    seq(l, p requires 0 <= p < l => DecompRow(ctx, s, ct, j, p, b)[c])
  }

  /** Word c of digit row p is digit p of the composed value c mod N, reduced. */
  lemma DecompRowWord(ctx: Context, s: Seal, ct: Ct, j: nat, p: nat, b: nat, c: nat)
    requires Valid(ctx) && SealValid(ctx, s) && IsCt2(ctx, ct) && j < 2 && c < Len(ctx)
    ensures c % ctx.n < |s.compose(ct[j])|
    ensures DecompRow(ctx, s, ct, j, p, b)[c] == DecompDigit(s.compose(ct[j])[c % ctx.n], p, b) % ModAt(ctx, c)
  {
  }

  /** The gadget identity behind the external product: the l digit rows of
      polynomial j, weighted by 2^(p * base_log2), add up to ct[j] modulo
      each block's modulus, provided the product of the moduli fits in
      l * base_log2 bits and the digits are the ordinary ones. */
  lemma DecompReconstructs(ctx: Context, s: Seal, ct: Ct, e: Eval, j: nat, c: nat)
    requires Valid(ctx) && SealValid(ctx, s) && ComposeIsCrt(ctx, s) && IsCt2(ctx, ct)
    requires j < 2 && c < Len(ctx) && e.baseLog2 <= 64
    requires Product(ctx.moduli) <= Pow2(e.l * e.baseLog2)
    ensures WeightedSum(Column(ctx, s, ct, j, e.l, e.baseLog2, c), e.baseLog2) % ModAt(ctx, c) == ct[j][c]
  {
    var q := ModAt(ctx, c);
    var b := e.baseLog2;
    var vals := s.compose(ct[j]);
    DecompRowWord(ctx, s, ct, j, 0, b, c);
    var v := vals[c % ctx.n];
    var col := Column(ctx, s, ct, j, e.l, b, c);
    var ds := DigitsAt(v, e.l, b);
    forall p | 0 <= p < e.l
      ensures col[p] % q == ds[p] % q
    {
      DecompRowWord(ctx, s, ct, j, p, b, c);
      SmallDivMod(ds[p] % q, q);
    }
    WeightedSumMod(col, ds, b, q);
    DigitsReconstruct(v, e.l, b);
  }

  // ---------------------------------------------------------------------
  // external_product

  /** The decomposed rows after the NTT of every block. */
  function NttRows(ctx: Context, s: Seal, ct: Ct, e: Eval): (rows: seq<Poly>)
    requires Valid(ctx) && SealValid(ctx, s) && IsCt2(ctx, ct)
    ensures |rows| == 2 * e.l
    ensures forall r :: 0 <= r < |rows| ==> Reduced(ctx, rows[r])
  {
    NttAll(ctx, s, DecompRows(ctx, s, ct, e))
  }

  /** The NTT of every row. */
  function NttAll(ctx: Context, s: Seal, rows: seq<Poly>): (out: seq<Poly>)
    requires Valid(ctx) && SealValid(ctx, s)
    requires forall r :: 0 <= r < |rows| ==> IsPoly(ctx, rows[r])
    ensures |out| == |rows| && forall r :: 0 <= r < |out| ==> Reduced(ctx, out[r])
  {
    seq(|rows|, r requires 0 <= r < |rows| => s.ntt(rows[r]))
  }

  /** The 2l products accumulated into word c of an output polynomial whose
      GSW half starts at word off of each row: dec[j][c] * gsw[j][off + c]. */
  function Terms(dec: seq<Poly>, gsw: seq<seq<nat>>, off: nat, c: nat): (t: seq<nat>)
    requires |dec| == |gsw|
    requires forall j :: 0 <= j < |dec| ==> c < |dec[j]| && off + c < |gsw[j]|
    ensures |t| == |dec|
  {
    seq(|dec|, j requires 0 <= j < |dec| => dec[j][c] * gsw[j][off + c])
  }

  /** Output polynomial with GSW half at off: the 128-bit accumulation of
      each word, reduced once modulo its block's modulus. */
  function ReduceAcc(ctx: Context, dec: seq<Poly>, gsw: seq<seq<nat>>, off: nat): (r: Poly)
    requires Valid(ctx) && |dec| == |gsw|
    requires forall j :: 0 <= j < |dec| ==> |dec[j]| == Len(ctx) && off + Len(ctx) <= |gsw[j]|
    ensures Reduced(ctx, r)
  {
    ReduceOnce(ctx, HalfSums(dec, gsw, off, Len(ctx)))
  }

  /** The 128-bit accumulations of one half, word by word. */
  function HalfSums(dec: seq<Poly>, gsw: seq<seq<nat>>, off: nat, len: nat): (r: seq<nat>)
    requires |dec| == |gsw|
    requires forall j :: 0 <= j < |dec| ==> |dec[j]| == len && off + len <= |gsw[j]|
    ensures |r| == len
  {
    seq(len, c requires 0 <= c < len => Acc128(Terms(dec, gsw, off, c)))
  }

  /** Every word reduced once modulo its block's modulus. */
  function ReduceOnce(ctx: Context, acc: seq<nat>): (r: Poly)
    requires Valid(ctx) && |acc| == Len(ctx)
    ensures Reduced(ctx, r)
  {
    seq(Len(ctx), c requires 0 <= c < Len(ctx) => acc[c] % ModAt(ctx, c))
  }

  /** The ciphertext external_product writes: polynomial k uses half k of
      every GSW row. */
  function ExternalProductOf(ctx: Context, s: Seal, e: Eval, gsw: seq<seq<nat>>, bfv: Ct): (r: Ct)
    requires Valid(ctx) && SealValid(ctx, s) && IsCt2(ctx, bfv) && IsGsw(ctx, e, gsw)
    ensures IsCt2(ctx, r)
  {
    var dec := NttRows(ctx, s, bfv, e);
    [ReduceAcc(ctx, dec, gsw, 0), ReduceAcc(ctx, dec, gsw, Len(ctx))]
  }

  /** With reduced GSW rows and 2l * q^2 <= 2^128 the delayed reduction is
      the modular dot product of the decomposed rows with the GSW column,
      and equals reducing after every product. */
  lemma ExternalProductIsModularDot(ctx: Context, s: Seal, e: Eval, gsw: seq<seq<nat>>, bfv: Ct,
                                    off: nat, c: nat)
    requires Valid(ctx) && SealValid(ctx, s) && IsCt2(ctx, bfv) && IsGsw(ctx, e, gsw)
    requires (off == 0 || off == Len(ctx)) && c < Len(ctx)
    requires forall j :: 0 <= j < 2 * e.l ==> gsw[j][off + c] < ModAt(ctx, c)
    requires 2 * e.l * (ModAt(ctx, c) * ModAt(ctx, c)) <= U128
    ensures ReduceAcc(ctx, NttRows(ctx, s, bfv, e), gsw, off)[c]
         == Sum(Terms(NttRows(ctx, s, bfv, e), gsw, off, c)) % ModAt(ctx, c)
    ensures ReduceAcc(ctx, NttRows(ctx, s, bfv, e), gsw, off)[c]
         == EagerMod(Terms(NttRows(ctx, s, bfv, e), gsw, off, c), ModAt(ctx, c))
  {
    var q := ModAt(ctx, c);
    var dec := NttRows(ctx, s, bfv, e);
    var t := Terms(dec, gsw, off, c);
    forall j | 0 <= j < |t|
      ensures t[j] < q * q
    {
      ProductBelow(dec[j][c], gsw[j][off + c], q);
    }
    Acc128Exact(t, q * q);
    DelayedModIsEager(t, q);
  }

  /** The NTT of every decomposed row, in place. */
  method NttEach(ctx: Context, s: Seal, rows: seq<Poly>) returns (out: seq<Poly>)
    requires Valid(ctx) && SealValid(ctx, s)
    requires forall r :: 0 <= r < |rows| ==> IsPoly(ctx, rows[r])
    ensures out == NttAll(ctx, s, rows)
  {
    out := rows;
    var r := 0;
    while r < |out|
      invariant 0 <= r <= |out| == |rows|
      invariant forall r' :: 0 <= r' < |rows| ==> out[r'] == if r' < r then s.ntt(rows[r']) else rows[r']
    {
      out := out[r := s.ntt(out[r])];
      r := r + 1;
    }
  }

  /** One step of the accumulation: adding product j to the first j
      products' running sum gives the first j + 1's. */
  lemma AccStep(dec: seq<Poly>, gsw: seq<seq<nat>>, off: nat, c: nat, j: nat)
    requires |dec| == |gsw| && j < |dec|
    requires forall j' :: 0 <= j' < |dec| ==> c < |dec[j']| && off + c < |gsw[j']|
    ensures Acc128(Terms(dec, gsw, off, c)[..j + 1])
         == (Acc128(Terms(dec, gsw, off, c)[..j]) + dec[j][c] * gsw[j][off + c]) % U128
  {
    var t := Terms(dec, gsw, off, c);
    assert t[..j + 1][..j] == t[..j];
  }

  /** The 128-bit buffer after the first j rows have been accumulated. */
  function AccPrefix(dec: seq<Poly>, gsw: seq<seq<nat>>, off: nat, len: nat, j: nat): (r: seq<nat>)
    requires |dec| == |gsw| && j <= |dec|
    requires forall j' :: 0 <= j' < |dec| ==> |dec[j']| == len && off + len <= |gsw[j']|
    ensures |r| == len
  {
    seq(len, c requires 0 <= c < len => Acc128(Terms(dec, gsw, off, c)[..j]))
  }

  /** multiply_poly_acum with row j extends the accumulation by one row. */
  lemma AccPrefixStep(dec: seq<Poly>, gsw: seq<seq<nat>>, off: nat, len: nat, j: nat)
    requires |dec| == |gsw| && j < |dec|
    requires forall j' :: 0 <= j' < |dec| ==> |dec[j']| == len && off + len <= |gsw[j']|
    ensures MulAcc(AccPrefix(dec, gsw, off, len, j), dec[j], gsw[j][off..off + len], 0, len)
         == AccPrefix(dec, gsw, off, len, j + 1)
  {
    var stepped := MulAcc(AccPrefix(dec, gsw, off, len, j), dec[j], gsw[j][off..off + len], 0, len);
    var next := AccPrefix(dec, gsw, off, len, j + 1);
    forall c | 0 <= c < len
      ensures stepped[c] == next[c]
    {
      AccStep(dec, gsw, off, c, j);
    }
  }

  /** result[k] of external_product: multiply_poly_acum of every decomposed
      row with half k of the matching GSW row, into a zeroed 128-bit buffer. */
  method AccumulateHalf(dec: seq<Poly>, gsw: seq<seq<nat>>, off: nat, len: nat) returns (sums: seq<nat>)
    requires |dec| == |gsw|
    requires forall j :: 0 <= j < |dec| ==> |dec[j]| == len && off + len <= |gsw[j]|
    ensures sums == HalfSums(dec, gsw, off, len)
  {
    var buf := new nat[len](_ => 0);
    assert buf[..] == AccPrefix(dec, gsw, off, len, 0);
    var j := 0;
    while j < |dec|
      invariant 0 <= j <= |dec|
      invariant buf[..] == AccPrefix(dec, gsw, off, len, j)
    {
      MultiplyPolyAcum(dec[j], gsw[j][off..off + len], len, buf, 0);
      AccPrefixStep(dec, gsw, off, len, j);
      j := j + 1;
    }
    sums := buf[..];
    forall c | 0 <= c < len
      ensures sums[c] == HalfSums(dec, gsw, off, len)[c]
    {
      assert Terms(dec, gsw, off, c)[..|dec|] == Terms(dec, gsw, off, c);
    }
  }

  /** Words pad .. pad + n - 1 of out become acc mod q; nothing else changes. */
  method ReduceBlock(acc: seq<nat>, out: array<nat>, pad: nat, n: nat, mod: nat)
    requires pad + n <= |acc| == out.Length && mod >= 1
    modifies out
    ensures out[..pad] == old(out[..pad]) && out[pad + n..] == old(out[pad + n..])
    ensures forall c :: pad <= c < pad + n ==> out[c] == acc[c] % mod
  {
    var coeffId := 0;
    while coeffId < n
      invariant 0 <= coeffId <= n
      invariant out[..pad] == old(out[..pad]) && out[pad + n..] == old(out[pad + n..])
      invariant forall c :: pad <= c < pad + coeffId ==> out[c] == acc[c] % mod
    {
      out[coeffId + pad] := acc[coeffId + pad] % mod;
      coeffId := coeffId + 1;
    }
  }

  /** The first w words are reduced modulo their block's modulus. */
  ghost predicate ReducedPrefix(ctx: Context, acc: seq<nat>, out: seq<nat>, w: nat)
    requires Valid(ctx)
  {
    |acc| == Len(ctx) && |out| == Len(ctx) && w <= Len(ctx) &&
    forall c :: 0 <= c < w ==> out[c] == acc[c] % ModAt(ctx, c)
  }

  /** Reducing block m extends the reduced prefix by one block. */
  lemma ReducedPrefixStep(ctx: Context, acc: seq<nat>, before: seq<nat>, after: seq<nat>, m: nat, pad: nat)
    requires Valid(ctx) && m < K(ctx) && pad == m * ctx.n
    requires ReducedPrefix(ctx, acc, before, pad) && |after| == Len(ctx)
    requires pad + ctx.n <= Len(ctx) && after[..pad] == before[..pad]
    requires forall c :: pad <= c < pad + ctx.n ==> after[c] == acc[c] % ctx.moduli[m]
    ensures ReducedPrefix(ctx, acc, after, pad + ctx.n)
  {
    forall c | 0 <= c < pad + ctx.n
      ensures after[c] == acc[c] % ModAt(ctx, c)
    {
      if c < pad {
        assert after[c] == after[..pad][c];
      } else {
        BlockOf(ctx, m, c - pad);
      }
    }
  }

  /** The final loop of external_product over one polynomial: word
      coeff_id + mod_id * N becomes the accumulated value mod q_mod_id. */
  method ReduceHalf(ctx: Context, acc: seq<nat>) returns (ct: seq<nat>)
    requires Valid(ctx) && |acc| == Len(ctx)
    ensures ct == ReduceOnce(ctx, acc)
  {
    var out := new nat[Len(ctx)];
    var n := ctx.n;
    var modId, modIdx := 0, 0;
    while modId < K(ctx)
      invariant 0 <= modId <= K(ctx) && modIdx == modId * n
      invariant ReducedPrefix(ctx, acc, out[..], modIdx)
    {
      MulSuccLeft(modId, n);
      MulMono(modId + 1, K(ctx), n);
      ghost var before := out[..];
      ReduceBlock(acc, out, modIdx, n, ctx.moduli[modId]);
      assert out[..][..modIdx] == before[..modIdx];
      ReducedPrefixStep(ctx, acc, before, out[..], modId, modIdx);
      modId, modIdx := modId + 1, modIdx + n;
    }
    assert modIdx == Len(ctx);
    ct := out[..];
  }

  /** GSWEval::external_product: decompose, NTT every row, accumulate the
      2l products of both halves in 128 bits, reduce each word once. */
  method ExternalProduct(ctx: Context, s: Seal, e: Eval, gswEnc: seq<seq<nat>>, bfv: Ct) returns (resCt: Ct)
    requires Valid(ctx) && SealValid(ctx, s) && IsCt2(ctx, bfv) && IsGsw(ctx, e, gswEnc)
    requires e.baseLog2 < 128 && (e.l == 0 || (e.l - 1) * e.baseLog2 < 64 * K(ctx))
    ensures resCt == ExternalProductOf(ctx, s, e, gswEnc, bfv)
  {
    var decomposed := DecompRlwe(ctx, s, bfv, e);
    decomposed := NttEach(ctx, s, decomposed);
    var len := Len(ctx);
    var result := [];
    var k := 0;
    while k < 2
      invariant 0 <= k <= 2 && |result| == k
      invariant k >= 1 ==> result[0] == HalfSums(decomposed, gswEnc, 0, len)
      invariant k >= 2 ==> result[1] == HalfSums(decomposed, gswEnc, len, len)
    {
      // polynomial k reads half k of every GSW row, at offset k * N * K
      var off := if k == 0 then 0 else len;
      var sums := AccumulateHalf(decomposed, gswEnc, off, len);
      result := result + [sums];
      k := k + 1;
    }
    var ct0 := ReduceHalf(ctx, result[0]);
    var ct1 := ReduceHalf(ctx, result[1]);
    resCt := [ct0, ct1];
  }

  // ---------------------------------------------------------------------
  // encrypt_plain_to_gsw

  /** The pow2 table: for each modulus q_i, l + 1 values starting at 1, each
      the previous one shifted left by base_log2 in 128 bits and reduced. */
  method Pow2Table(l: nat, baseLog2: nat, moduli: seq<nat>) returns (pow2: seq<seq<nat>>)
    requires forall i :: 0 <= i < |moduli| ==> moduli[i] >= 1
    ensures pow2 == Pow2TableOf(l, baseLog2, moduli)
  {
    pow2 := [];
    var i := 0;
    while i < |moduli|
      invariant 0 <= i <= |moduli| && |pow2| == i
      invariant forall i' :: 0 <= i' < i ==> |pow2[i']| == l + 1
      invariant forall i', j :: 0 <= i' < i && 0 <= j <= l ==>
        pow2[i'][j] == ShiftModPow(baseLog2, j, moduli[i'], U128)
    {
      var row := PowRow(l, baseLog2, moduli[i]);
      pow2 := pow2 + [row];
      i := i + 1;
    }
    forall i | 0 <= i < |moduli|
      ensures pow2[i] == Pow2TableOf(l, baseLog2, moduli)[i]
    {
      assert forall j :: 0 <= j <= l ==> pow2[i][j] == Pow2TableOf(l, baseLog2, moduli)[i][j];
    }
  }

  /** One row of the pow2 table: pow starts at 1 and becomes (pow << base_log2) % mod. */
  method PowRow(l: nat, baseLog2: nat, mod: nat) returns (row: seq<nat>)
    requires mod >= 1
    ensures |row| == l + 1
    ensures forall j :: 0 <= j <= l ==> row[j] == ShiftModPow(baseLog2, j, mod, U128)
  {
    row := [];
    var pow := 1;
    var j := 0;
    while j <= l
      invariant 0 <= j <= l + 1 && |row| == j
      invariant pow == ShiftModPow(baseLog2, j, mod, U128)
      invariant forall j' :: 0 <= j' < j ==> row[j'] == ShiftModPow(baseLog2, j', mod, U128)
    {
      row := row + [pow];
      pow := ((pow * Pow2(baseLog2)) % U128) % mod;
      j := j + 1;
    }
  }

  /** The table Pow2Table fills. */
  function Pow2TableOf(l: nat, baseLog2: nat, moduli: seq<nat>): (t: seq<seq<nat>>)
    requires forall i :: 0 <= i < |moduli| ==> moduli[i] >= 1
    ensures |t| == |moduli| && forall i :: 0 <= i < |moduli| ==> |t[i]| == l + 1
  {
    seq(|moduli|, i requires 0 <= i < |moduli| =>
      seq(l + 1, j requires 0 <= j <= l => ShiftModPow(baseLog2, j, moduli[i], U128)))
  }

  /** pow2[i][j] == 2^(j * base_log2) mod q_i for 64-bit moduli and base_log2 <= 64. */
  lemma Pow2TableClosed(baseLog2: nat, j: nat, q: nat, e: nat)
    requires 2 <= q < U64 && baseLog2 <= 64 && e == j * baseLog2
    ensures ShiftModPow(baseLog2, j, q, U128) == Pow2(e) % q
  {
    ShiftModPow128Closed(baseLog2, j, q);
    assert baseLog2 * j == j * baseLog2;
  }

  /** The plaintext coefficient added at word c: pt[c] when the plaintext
      has N*K words, pt[c mod N] (shared by every block) when it has N. */
  function PlainAt(ctx: Context, plaintext: seq<nat>, c: nat): nat
    requires Valid(ctx) && c < Len(ctx) && (|plaintext| == Len(ctx) || |plaintext| == ctx.n)
  {
    if |plaintext| == Len(ctx) then plaintext[c] else plaintext[c % ctx.n]
  }

  /** Polynomial poly of a zero encryption after row i's update: word c of
      block m gains pt * pow2[m][i] mod q_m, reduced again. */
  function ScaledPoly(ctx: Context, poly: Poly, plaintext: seq<nat>, pow2: seq<seq<nat>>, i: nat): (r: Poly)
    requires Valid(ctx) && IsPoly(ctx, poly) && (|plaintext| == Len(ctx) || |plaintext| == ctx.n)
    requires |pow2| == K(ctx) && forall m :: 0 <= m < K(ctx) ==> i < |pow2[m]|
    ensures Reduced(ctx, r)
  {
    seq(Len(ctx), c requires 0 <= c < Len(ctx) => ScaledWord(ctx, poly, plaintext, pow2, i, c))
  }

  function ScaledWord(ctx: Context, poly: Poly, plaintext: seq<nat>, pow2: seq<seq<nat>>, i: nat, c: nat): (w: nat)
    requires Valid(ctx) && IsPoly(ctx, poly) && (|plaintext| == Len(ctx) || |plaintext| == ctx.n)
    requires |pow2| == K(ctx) && forall m :: 0 <= m < K(ctx) ==> i < |pow2[m]|
    requires c < Len(ctx)
    ensures w < ModAt(ctx, c)
  {
    var q := ModAt(ctx, c);
    (poly[c] + (PlainAt(ctx, plaintext, c) * pow2[Block(ctx.n, K(ctx), c)][i]) % q) % q
  }

  /** Row poly_id * l + i: the zero encryption with polynomial poly_id scaled,
      the other polynomial unchanged, both written out one after the other. */
  function GswRow(ctx: Context, zero: Ct, plaintext: seq<nat>, pow2: seq<seq<nat>>, polyId: nat, i: nat): (row: seq<nat>)
    requires Valid(ctx) && IsCt2(ctx, zero) && polyId < 2 && (|plaintext| == Len(ctx) || |plaintext| == ctx.n)
    requires |pow2| == K(ctx) && forall m :: 0 <= m < K(ctx) ==> i < |pow2[m]|
    ensures |row| == 2 * Len(ctx)
  {
    if polyId == 0 then ScaledPoly(ctx, zero[0], plaintext, pow2, i) + zero[1]
    else zero[0] + ScaledPoly(ctx, zero[1], plaintext, pow2, i)
  }

  /** Words pad .. pad + n - 1 of ct gain pt[ptOff + j] * coef mod q, reduced
      again; nothing else changes. */
  method ScaleBlock(ct: array<nat>, pad: nat, n: nat, mod: nat, coef: nat, plaintext: seq<nat>, ptOff: nat)
    requires pad + n <= ct.Length && ptOff + n <= |plaintext| && mod >= 1
    modifies ct
    ensures ct[..pad] == old(ct[..pad]) && ct[pad + n..] == old(ct[pad + n..])
    ensures forall c :: pad <= c < pad + n ==>
      ct[c] == (old(ct[c]) + (plaintext[ptOff + (c - pad)] * coef) % mod) % mod
  {
    ghost var before := ct[..];
    var j := 0;
    while j < n
      invariant 0 <= j <= n
      invariant ct[..pad] == before[..pad] && ct[pad + n..] == before[pad + n..]
      invariant forall c :: pad <= c < pad + n ==>
        ct[c] == if c < pad + j then (before[c] + (plaintext[ptOff + (c - pad)] * coef) % mod) % mod
                 else before[c]
    {
      ct[j + pad] := (ct[j + pad] + (plaintext[ptOff + j] * coef) % mod) % mod;
      j := j + 1;
    }
  }

  /** The first w words are updated, the rest are still poly's. */
  ghost predicate ScaledPrefix(ctx: Context, poly: Poly, plaintext: seq<nat>, pow2: seq<seq<nat>>, i: nat,
                               cur: seq<nat>, w: nat)
    requires Valid(ctx) && IsPoly(ctx, poly) && (|plaintext| == Len(ctx) || |plaintext| == ctx.n)
    requires |pow2| == K(ctx) && forall m :: 0 <= m < K(ctx) ==> i < |pow2[m]|
  {
    |cur| == Len(ctx) &&
    forall c :: 0 <= c < Len(ctx) ==> cur[c] == if c < w then ScaledWord(ctx, poly, plaintext, pow2, i, c) else poly[c]
  }

  /** Updating block m extends the updated prefix by one block. */
  lemma ScaledPrefixStep(ctx: Context, poly: Poly, plaintext: seq<nat>, pow2: seq<seq<nat>>, i: nat,
                         before: seq<nat>, after: seq<nat>, m: nat, pad: nat, ptOff: nat)
    requires Valid(ctx) && IsPoly(ctx, poly) && (|plaintext| == Len(ctx) || |plaintext| == ctx.n)
    requires |pow2| == K(ctx) && forall m' :: 0 <= m' < K(ctx) ==> i < |pow2[m']|
    requires m < K(ctx) && pad == m * ctx.n && pad + ctx.n <= Len(ctx)
    requires ptOff == if |plaintext| == Len(ctx) then pad else 0
    requires ScaledPrefix(ctx, poly, plaintext, pow2, i, before, pad) && |after| == Len(ctx)
    requires after[..pad] == before[..pad] && after[pad + ctx.n..] == before[pad + ctx.n..]
    requires forall c :: pad <= c < pad + ctx.n ==>
      after[c] == (before[c] + (plaintext[ptOff + (c - pad)] * pow2[m][i]) % ctx.moduli[m]) % ctx.moduli[m]
    ensures ScaledPrefix(ctx, poly, plaintext, pow2, i, after, pad + ctx.n)
  {
    forall c | 0 <= c < Len(ctx)
      ensures after[c] == if c < pad + ctx.n then ScaledWord(ctx, poly, plaintext, pow2, i, c) else poly[c]
    {
      if c < pad {
        assert after[c] == after[..pad][c];
      } else if c < pad + ctx.n {
        ScaledStepWord(ctx, poly, plaintext, pow2, i, m, c - pad, c, pad, ptOff, before[c], after[c]);
      } else {
        assert after[c] == after[pad + ctx.n..][c - (pad + ctx.n)];
      }
    }
  }

  /** One word of the block update: an unchanged word that gains the
      plaintext word times the table entry becomes the scaled word. */
  lemma ScaledStepWord(ctx: Context, poly: Poly, plaintext: seq<nat>, pow2: seq<seq<nat>>, i: nat,
                       m: nat, j: nat, c: nat, pad: nat, ptOff: nat, was: nat, now: nat)
    requires Valid(ctx) && IsPoly(ctx, poly) && (|plaintext| == Len(ctx) || |plaintext| == ctx.n)
    requires |pow2| == K(ctx) && forall m' :: 0 <= m' < K(ctx) ==> i < |pow2[m']|
    requires m < K(ctx) && j < ctx.n && pad == m * ctx.n && c == pad + j && c < Len(ctx)
    requires ptOff == if |plaintext| == Len(ctx) then pad else 0
    requires ptOff + j < |plaintext| && was == poly[c]
    requires now == (was + (plaintext[ptOff + j] * pow2[m][i]) % ctx.moduli[m]) % ctx.moduli[m]
    ensures now == ScaledWord(ctx, poly, plaintext, pow2, i, c)
  {
    PlainAtBlock(ctx, plaintext, m, j, c, pad, ptOff);
    ScaledWordOf(ctx, poly, plaintext, pow2, i, m, j, c, ctx.moduli[m]);
  }

  /** The update of one polynomial of a zero encryption, in place: for each
      block, the coefficient pow2[mod_id][i] and the plaintext words it meets. */
  method ScalePoly(ctx: Context, poly: Poly, plaintext: seq<nat>, pow2: seq<seq<nat>>, i: nat) returns (r: Poly)
    requires Valid(ctx) && Reduced(ctx, poly) && (|plaintext| == Len(ctx) || |plaintext| == ctx.n)
    requires |pow2| == K(ctx) && forall m :: 0 <= m < K(ctx) ==> i < |pow2[m]|
    ensures r == ScaledPoly(ctx, poly, plaintext, pow2, i)
  {
    var ct := new nat[Len(ctx)](c requires 0 <= c < Len(ctx) => poly[c]);
    var modId := 0;
    while modId < K(ctx)
      invariant 0 <= modId <= K(ctx)
      invariant ScaledPrefix(ctx, poly, plaintext, pow2, i, ct[..], modId * ctx.n)
    {
      var pad := modId * ctx.n;
      MulSuccLeft(modId, ctx.n);
      MulMono(modId + 1, K(ctx), ctx.n);
      ScaleModulus(ctx, poly, plaintext, pow2, i, ct, modId, pad);
      modId := modId + 1;
    }
    assert K(ctx) * ctx.n == Len(ctx);
    r := ct[..];
  }

  /** The body of ScalePoly's loop: block mod_id of ct is updated with its
      modulus and table entry. */
  method ScaleModulus(ctx: Context, poly: Poly, plaintext: seq<nat>, pow2: seq<seq<nat>>, i: nat,
                      ct: array<nat>, modId: nat, pad: nat)
    requires Valid(ctx) && IsPoly(ctx, poly) && (|plaintext| == Len(ctx) || |plaintext| == ctx.n)
    requires |pow2| == K(ctx) && forall m :: 0 <= m < K(ctx) ==> i < |pow2[m]|
    requires modId < K(ctx) && pad == modId * ctx.n && pad + ctx.n <= Len(ctx)
    requires ScaledPrefix(ctx, poly, plaintext, pow2, i, ct[..], pad)
    modifies ct
    ensures ScaledPrefix(ctx, poly, plaintext, pow2, i, ct[..], pad + ctx.n)
  {
    var ptOff := if |plaintext| == Len(ctx) then pad else 0;
    ghost var before := ct[..];
    ScaleBlock(ct, pad, ctx.n, ctx.moduli[modId], pow2[modId][i], plaintext, ptOff);
    assert ct[..][..pad] == before[..pad];
    assert ct[..][pad + ctx.n..] == before[pad + ctx.n..];
    ScaledPrefixStep(ctx, poly, plaintext, pow2, i, before, ct[..], modId, pad, ptOff);
  }

  /** Row r of encrypt_plain_to_gsw's output: row r of polynomial 0 for
      r < l, row r - l of polynomial 1 after that. */
  function GswRowAt(ctx: Context, e: Eval, zeros: seq<Ct>, plaintext: seq<nat>, pow2: seq<seq<nat>>, r: nat): (row: seq<nat>)
    requires Valid(ctx) && (|plaintext| == Len(ctx) || |plaintext| == ctx.n)
    requires |zeros| == 2 * e.l && forall r' :: 0 <= r' < |zeros| ==> IsCt2(ctx, zeros[r'])
    requires |pow2| == K(ctx) && forall m :: 0 <= m < K(ctx) ==> e.l <= |pow2[m]|
    requires r < 2 * e.l
    ensures |row| == 2 * Len(ctx)
  {
    if r < e.l then GswRow(ctx, zeros[r], plaintext, pow2, 0, r)
    else GswRow(ctx, zeros[r], plaintext, pow2, 1, r - e.l)
  }

  /** The l rows of one polynomial: row i scales polynomial poly_id of the
      zero encryption zeros[base + i] by pow2[.][i]. */
  method EncryptRows(ctx: Context, e: Eval, plaintext: seq<nat>, zeros: seq<Ct>, pow2: seq<seq<nat>>,
                     polyId: nat, base: nat) returns (rows: seq<seq<nat>>)
    requires Valid(ctx) && (|plaintext| == Len(ctx) || |plaintext| == ctx.n)
    requires |zeros| == 2 * e.l && forall r :: 0 <= r < |zeros| ==> IsCt2(ctx, zeros[r])
    requires |pow2| == K(ctx) && forall m :: 0 <= m < K(ctx) ==> e.l <= |pow2[m]|
    requires polyId < 2 && base == polyId * e.l
    ensures |rows| == e.l
    ensures forall i :: 0 <= i < e.l ==> rows[i] == GswRowAt(ctx, e, zeros, plaintext, pow2, base + i)
  {
    rows := [];
    var i := 0;
    while i < e.l
      invariant 0 <= i <= e.l && |rows| == i
      invariant forall i' :: 0 <= i' < i ==> rows[i'] == GswRowAt(ctx, e, zeros, plaintext, pow2, base + i')
    {
      var cipher := zeros[base + i];
      var scaled := ScalePoly(ctx, cipher[polyId], plaintext, pow2, i);
      var row := if polyId == 0 then scaled + cipher[1] else cipher[0] + scaled;
      rows := rows + [row];
      i := i + 1;
    }
  }

  /** GSWEval::encrypt_plain_to_gsw before the final NTT: 2l rows, row
      poly_id * l + i built from the zero encryption zeros[poly_id * l + i].
      Each encrypt_zero_symmetric call draws fresh randomness, so the zero
      encryptions are an input. */
  method EncryptPlainToGsw(ctx: Context, e: Eval, plaintext: seq<nat>, zeros: seq<Ct>) returns (output: seq<seq<nat>>)
    requires Valid(ctx) && (|plaintext| == Len(ctx) || |plaintext| == ctx.n)
    requires |zeros| == 2 * e.l && forall r :: 0 <= r < |zeros| ==> IsCt2(ctx, zeros[r])
    ensures IsGsw(ctx, e, output)
    ensures forall r :: 0 <= r < 2 * e.l ==>
      output[r] == GswRowAt(ctx, e, zeros, plaintext, Pow2TableOf(e.l, e.baseLog2, ctx.moduli), r)
  {
    var pow2 := Pow2Table(e.l, e.baseLog2, ctx.moduli);
    output := [];
    var polyId := 0;
    while polyId <= 1
      invariant 0 <= polyId <= 2 && |output| == polyId * e.l
      invariant forall r :: 0 <= r < |output| ==> output[r] == GswRowAt(ctx, e, zeros, plaintext, pow2, r)
    {
      var rows := EncryptRows(ctx, e, plaintext, zeros, pow2, polyId, polyId * e.l);
      output := output + rows;
      polyId := polyId + 1;
    }
  }

  /** What row i of encrypt_plain_to_gsw adds at word c = m*N + j of block m:
      with 64-bit moduli and base_log2 <= 64, pt * 2^e mod q_m, where
      e = i * base_log2. */
  lemma ScaledPolyIsGadgetScaled(ctx: Context, poly: Poly, plaintext: seq<nat>, pow2: seq<seq<nat>>,
                                 b: nat, i: nat, m: nat, j: nat, c: nat, q: nat, e: nat)
    requires Valid(ctx) && IsPoly(ctx, poly) && (|plaintext| == Len(ctx) || |plaintext| == ctx.n)
    requires |pow2| == K(ctx) && forall m' :: 0 <= m' < K(ctx) ==> i < |pow2[m']|
    requires b <= 64 && m < K(ctx) && j < ctx.n && c == m * ctx.n + j && q == ctx.moduli[m] && e == i * b
    requires pow2[m][i] == ShiftModPow(b, i, q, U128)
    ensures c < Len(ctx)
    ensures ScaledPoly(ctx, poly, plaintext, pow2, i)[c] == (poly[c] + PlainAt(ctx, plaintext, c) * Pow2(e)) % q
  {
    Pow2TableClosed(b, i, q, e);
    ScaledWordGadget(ctx, poly, plaintext, pow2, i, m, j, c, q, Pow2(e));
  }

  /** The scaled word, with the table entry pw mod q, is (x + pt * pw) mod q. */
  lemma ScaledWordGadget(ctx: Context, poly: Poly, plaintext: seq<nat>, pow2: seq<seq<nat>>,
                         i: nat, m: nat, j: nat, c: nat, q: nat, pw: nat)
    requires Valid(ctx) && IsPoly(ctx, poly) && (|plaintext| == Len(ctx) || |plaintext| == ctx.n)
    requires |pow2| == K(ctx) && forall m' :: 0 <= m' < K(ctx) ==> i < |pow2[m']|
    requires m < K(ctx) && j < ctx.n && c == m * ctx.n + j && q == ctx.moduli[m]
    requires pow2[m][i] == pw % q
    ensures c < Len(ctx)
    ensures ScaledPoly(ctx, poly, plaintext, pow2, i)[c] == (poly[c] + PlainAt(ctx, plaintext, c) * pw) % q
  {
    ScaledWordAt(ctx, poly, plaintext, pow2, i, m, j, c, q);
    ScaledGadget(poly[c], PlainAt(ctx, plaintext, c), pw, q, pow2[m][i]);
  }

  lemma ScaledGadget(x: nat, pt: nat, pw: nat, q: nat, coef: nat)
    requires q >= 1 && coef == pw % q
    ensures (x + (pt * coef) % q) % q == (x + pt * pw) % q
  {
    GadgetTerm(x, pt, pw, q, coef, pt * pw, pt * coef);
  }

  /** Word m*N + j of block m is scaled with block m's modulus and table entry. */
  lemma ScaledWordOf(ctx: Context, poly: Poly, plaintext: seq<nat>, pow2: seq<seq<nat>>,
                     i: nat, m: nat, j: nat, c: nat, q: nat)
    requires Valid(ctx) && IsPoly(ctx, poly) && (|plaintext| == Len(ctx) || |plaintext| == ctx.n)
    requires |pow2| == K(ctx) && forall m' :: 0 <= m' < K(ctx) ==> i < |pow2[m']|
    requires m < K(ctx) && j < ctx.n && c == m * ctx.n + j && q == ctx.moduli[m] && c < Len(ctx)
    ensures ScaledWord(ctx, poly, plaintext, pow2, i, c)
         == (poly[c] + (PlainAt(ctx, plaintext, c) * pow2[m][i]) % q) % q
  {
    var n, k := ctx.n, K(ctx);
    BlockWord(n, k, m, j);
    assert Block(n, k, c) == m;
    assert ModAt(ctx, c) == q;
  }

  /** The plaintext word met at offset j of a block starting at pad. */
  lemma PlainAtBlock(ctx: Context, plaintext: seq<nat>, m: nat, j: nat, c: nat, pad: nat, ptOff: nat)
    requires Valid(ctx) && (|plaintext| == Len(ctx) || |plaintext| == ctx.n)
    requires m < K(ctx) && j < ctx.n && pad == m * ctx.n && c == pad + j && c < Len(ctx)
    requires ptOff == if |plaintext| == Len(ctx) then pad else 0
    ensures ptOff + j < |plaintext| && PlainAt(ctx, plaintext, c) == plaintext[ptOff + j]
  {
    BlockWord(ctx.n, K(ctx), m, j);
  }

  /** Word j of block m of the scaled polynomial uses block m's modulus and
      table entry. */
  lemma ScaledWordAt(ctx: Context, poly: Poly, plaintext: seq<nat>, pow2: seq<seq<nat>>,
                     i: nat, m: nat, j: nat, c: nat, q: nat)
    requires Valid(ctx) && IsPoly(ctx, poly) && (|plaintext| == Len(ctx) || |plaintext| == ctx.n)
    requires |pow2| == K(ctx) && forall m' :: 0 <= m' < K(ctx) ==> i < |pow2[m']|
    requires m < K(ctx) && j < ctx.n && c == m * ctx.n + j && q == ctx.moduli[m]
    ensures c < Len(ctx)
    ensures ScaledPoly(ctx, poly, plaintext, pow2, i)[c]
         == (poly[c] + (PlainAt(ctx, plaintext, c) * pow2[m][i]) % q) % q
  {
    BlockWord(ctx.n, K(ctx), m, j);
    ScaledWordOf(ctx, poly, plaintext, pow2, i, m, j, c, q);
  }

  /** (x + (pt * (pw mod q)) mod q) mod q == (x + pt * pw) mod q. */
  lemma GadgetTerm(x: nat, pt: nat, pw: nat, q: nat, coef: nat, y: nat, z: nat)
    requires q >= 1 && coef == pw % q && y == pt * pw && z == pt * coef
    ensures (x + z % q) % q == (x + y) % q
  {
    ModMulMod(pt, pw, q);
    ModMulMod(pt, coef, q);
    SmallDivMod(coef, q);
    assert z % q == y % q;
    SmallDivMod(y % q, q);
    ModAdd(x, y % q, q);
    ModAdd(x, y, q);
  }

  // ---------------------------------------------------------------------
  // query_to_gsw

  /** Both halves of a GSW row transformed, as gsw_ntt_negacyclic_harvey does. */
  function NttRow(ctx: Context, s: Seal, ct: Ct): (row: seq<nat>)
    requires Valid(ctx) && SealValid(ctx, s) && IsCt2(ctx, ct)
    ensures |row| == 2 * Len(ctx)
  {
    s.ntt(ct[0]) + s.ntt(ct[1])
  }

  /** The external product of the key GSW with ct, written out as one row. */
  function ProductRow(ctx: Context, s: Seal, e: Eval, gswKey: seq<seq<nat>>, ct: Ct): (row: seq<nat>)
    requires Valid(ctx) && SealValid(ctx, s) && IsGsw(ctx, e, gswKey) && IsCt2(ctx, ct)
    ensures |row| == 2 * Len(ctx)
  {
    var p := ExternalProductOf(ctx, s, e, gswKey, ct);
    p[0] + p[1]
  }

  /** GSWEval::query_to_gsw: cl expanded query ciphertexts give 2cl rows;
      row i is query[i] written out and transformed to the NTT domain, row
      cl + i is the external product of the key GSW with query[i], not
      transformed. */
  method QueryToGsw(ctx: Context, s: Seal, e: Eval, query: seq<Ct>, gswKey: seq<seq<nat>>) returns (output: seq<seq<nat>>)
    requires Valid(ctx) && SealValid(ctx, s) && IsGsw(ctx, e, gswKey)
    requires |query| >= 1 && forall i :: 0 <= i < |query| ==> IsCt2(ctx, query[i])
    requires e.baseLog2 < 128 && (e.l == 0 || (e.l - 1) * e.baseLog2 < 64 * K(ctx))
    ensures |output| == 2 * |query|
    ensures forall i :: 0 <= i < |query| ==> output[i] == NttRow(ctx, s, query[i])
    ensures forall i :: 0 <= i < |query| ==> output[|query| + i] == ProductRow(ctx, s, e, gswKey, query[i])
  {
    var first := NttQuery(ctx, s, query);
    var second := ProductRows(ctx, s, e, query, gswKey);
    output := first + second;
  }

  /** The first half of query_to_gsw's output: every query ciphertext's two
      polynomials concatenated and transformed. */
  method NttQuery(ctx: Context, s: Seal, query: seq<Ct>) returns (out: seq<seq<nat>>)
    requires Valid(ctx) && SealValid(ctx, s)
    requires forall i :: 0 <= i < |query| ==> IsCt2(ctx, query[i])
    ensures |out| == |query|
    ensures forall i :: 0 <= i < |query| ==> out[i] == NttRow(ctx, s, query[i])
  {
    var rows := [];
    var i := 0;
    while i < |query|
      invariant 0 <= i <= |query| && |rows| == i
      invariant forall i' :: 0 <= i' < i ==> rows[i'] == query[i'][0] + query[i'][1]
    {
      rows := rows + [query[i][0] + query[i][1]];
      i := i + 1;
    }
    out := GswNtt(ctx, s, rows);
    forall i' | 0 <= i' < |query|
      ensures out[i'] == NttRow(ctx, s, query[i'])
    {
      assert rows[i'][..Len(ctx)] == query[i'][0];
      assert rows[i'][Len(ctx)..] == query[i'][1];
    }
  }

  /** The second half of query_to_gsw's output: the external product of the
      key GSW with every query ciphertext. */
  method ProductRows(ctx: Context, s: Seal, e: Eval, query: seq<Ct>, gswKey: seq<seq<nat>>) returns (out: seq<seq<nat>>)
    requires Valid(ctx) && SealValid(ctx, s) && IsGsw(ctx, e, gswKey)
    requires forall i :: 0 <= i < |query| ==> IsCt2(ctx, query[i])
    requires e.baseLog2 < 128 && (e.l == 0 || (e.l - 1) * e.baseLog2 < 64 * K(ctx))
    ensures |out| == |query|
    ensures forall i :: 0 <= i < |query| ==> out[i] == ProductRow(ctx, s, e, gswKey, query[i])
  {
    ghost var rows := seq(|query|, j requires 0 <= j < |query| => ProductRow(ctx, s, e, gswKey, query[j]));
    out := [];
    var i := 0;
    while i < |query|
      invariant 0 <= i <= |query| && out == rows[..i]
    {
      var row := ProductRowOf(ctx, s, e, gswKey, query[i]);
      assert rows[..i + 1] == rows[..i] + [row];
      out := out + [row];
      i := i + 1;
    }
    assert out == rows;
  }

  /** One row of the second half: the external product, both polynomials
      written out one after the other. */
  method ProductRowOf(ctx: Context, s: Seal, e: Eval, gswKey: seq<seq<nat>>, ct: Ct) returns (row: seq<nat>)
    requires Valid(ctx) && SealValid(ctx, s) && IsGsw(ctx, e, gswKey) && IsCt2(ctx, ct)
    requires e.baseLog2 < 128 && (e.l == 0 || (e.l - 1) * e.baseLog2 < 64 * K(ctx))
    ensures row == ProductRow(ctx, s, e, gswKey, ct)
  {
    var prod := ExternalProduct(ctx, s, e, gswKey, ct);
    row := prod[0] + prod[1];
  }

  /** gsw_ntt_negacyclic_harvey: both halves of every row transformed. */
  method GswNtt(ctx: Context, s: Seal, gsw: seq<seq<nat>>) returns (out: seq<seq<nat>>)
    requires Valid(ctx) && SealValid(ctx, s)
    requires forall r :: 0 <= r < |gsw| ==> |gsw[r]| == 2 * Len(ctx)
    ensures |out| == |gsw|
    ensures forall r :: 0 <= r < |gsw| ==>
      out[r] == s.ntt(gsw[r][..Len(ctx)]) + s.ntt(gsw[r][Len(ctx)..])
  {
    out := gsw;
    var r := 0;
    while r < |out|
      invariant 0 <= r <= |out| == |gsw|
      invariant forall r' :: 0 <= r' < |gsw| ==>
        out[r'] == if r' < r then s.ntt(gsw[r'][..Len(ctx)]) + s.ntt(gsw[r'][Len(ctx)..]) else gsw[r']
    {
      var row := out[r];
      out := out[r := s.ntt(row[..Len(ctx)]) + s.ntt(row[Len(ctx)..])];
      r := r + 1;
    }
  }
}
