/** src/client.cpp: the client's index arithmetic (entry to plaintext, the
    plaintext's coordinates in the database's dimensions), the query
    (padding to a power of two, the first-dimension coefficient, the gadget
    values inserted for the later dimensions), the list of Galois elements,
    and reading an entry back out of a decrypted plaintext. */
module Client {
  import opened Arith
  import opened Digits
  import opened Rns
  import opened Utils
  import opened Wrappers
  import PirParams

  // ---------------------------------------------------------------------
  // get_database_plain_index, get_query_indexes

  /** The plaintext that holds entry entryIndex: entryIndex / epp. */
  function PlainIndex(entryIndex: nat, epp: nat): (p: nat)
    requires epp >= 1
    ensures p * epp <= entryIndex < p * epp + epp
  {
    QuotRem(entryIndex, epp);
    Quot(entryIndex, epp)
  }

  /** Each size of the remaining dimensions is at least one and covers the
      dimensions still to come. */
  lemma RemainingCovers(size: nat, dims: seq<nat>)
    requires |dims| >= 1 && forall i :: 0 <= i < |dims| ==> dims[i] >= 1
    requires Product(dims) <= size
    ensures Product(dims[1..]) <= Quot(size, dims[0]) && Quot(size, dims[0]) >= 1
  {
    var p := Product(dims[1..]);
    ProductPositive(dims[1..]);
    QuotRem(size, dims[0]);
    var q := Quot(size, dims[0]);
    if q < p {
      MulMono(q + 1, p, dims[0]);
      MulSuccLeft(q, dims[0]);
    }
  }

  /** The indexes get_query_indexes computes, most significant dimension
      first: dividing the remaining size by each dimension in turn, the
      quotient of the index is that dimension's coordinate and the remainder
      is carried on. */
  function QueryIndexesOf(size: nat, dims: seq<nat>, index: nat): (idx: seq<nat>)
    requires forall i :: 0 <= i < |dims| ==> dims[i] >= 1
    requires Product(dims) <= size
    ensures |idx| == |dims|
    decreases |dims|
  {
    if |dims| == 0 then []
    else
      RemainingCovers(size, dims);
      var rest := Quot(size, dims[0]);
      [Quot(index, rest)] + QueryIndexesOf(rest, dims[1..], Rem(index, rest))
  }

  /** The position that coordinates idx denote in dimensions dims. */
  function MixedRadix(idx: seq<nat>, dims: seq<nat>): nat
    requires |idx| == |dims|
  {
    if |idx| == 0 then 0 else idx[0] * Product(dims[1..]) + MixedRadix(idx[1..], dims[1..])
  }

  /** When the dimensions multiply to the size exactly, every coordinate is
      inside its dimension and the coordinates denote the index they came
      from. */
  lemma {:induction false} QueryIndexesExact(size: nat, dims: seq<nat>, index: nat)
    requires forall i :: 0 <= i < |dims| ==> dims[i] >= 1
    requires Product(dims) == size && index < size
    ensures forall i :: 0 <= i < |dims| ==> QueryIndexesOf(size, dims, index)[i] < dims[i]
    ensures MixedRadix(QueryIndexesOf(size, dims, index), dims) == index
    decreases |dims|
  {
    if |dims| > 0 {
      var p := Product(dims[1..]);
      ProductPositive(dims[1..]);
      QuotRemUnique(size, dims[0], p, 0);
      var hi, lo := Quot(index, p), Rem(index, p);
      QuotRem(index, p);
      if hi >= dims[0] {
        MulMono(dims[0], hi, p);
      }
      QueryIndexesExact(p, dims[1..], lo);
      var idx := QueryIndexesOf(size, dims, index);
      assert idx[1..] == QueryIndexesOf(p, dims[1..], lo);
      forall i | 1 <= i < |dims|
        ensures idx[i] < dims[i]
      {
        assert idx[i] == idx[1..][i - 1] && dims[i] == dims[1..][i - 1];
      }
    }
  }

  /** get_query_indexes, with size_of_remaining_dims starting at DBSize. */
  method GetQueryIndexes(dbSize: nat, dims: seq<nat>, plaintextIndex: nat) returns (idx: seq<nat>)
    requires forall i :: 0 <= i < |dims| ==> dims[i] >= 1
    requires Product(dims) <= dbSize
    ensures idx == QueryIndexesOf(dbSize, dims, plaintextIndex)
  {
    idx := [];
    var index := plaintextIndex;
    var size := dbSize;
    var i := 0;
    while i < |dims|
      invariant 0 <= i <= |dims|
      invariant Product(dims[i..]) <= size
      invariant idx + QueryIndexesOf(size, dims[i..], index) == QueryIndexesOf(dbSize, dims, plaintextIndex)
    {
      RemainingCovers(size, dims[i..]);
      QuotRemIsDivMod(size, dims[i]);
      assert dims[i..][1..] == dims[i + 1..];
      size := size / dims[i];
      QuotRemIsDivMod(index, size);
      idx := idx + [index / size];
      index := index % size;
      i := i + 1;
    }
    assert idx + [] == idx;
  }

  /** Under the checks as written, DBSize = 257 in two dimensions gives
      dimensions [128, 2], and plaintext 256 (a valid plaintext, below
      DBSize) gets first coordinate 128, one past the first dimension. */
  lemma AsWrittenIndexOutOfRange()
    ensures PirParams.CheckAsWritten(257, 2, 257, 1) == None
    ensures PirParams.Dims(PirParams.FirstDim(257, 2), 2) == [128, 2]
    ensures QueryIndexesOf(257, [128, 2], 256) == [128, 0]
    ensures QueryIndexesOf(257, [128, 2], 256)[0] >= [128, 2][0]
  {
    PirParams.AsWrittenAcceptsNonPowerOfTwo();
    assert Product([128, 2]) == 256 by {
      assert [128, 2][1..] == [2];
      assert [2][1..] == [];
    }
    QuotRemUnique(257, 128, 2, 1);
    QuotRemUnique(256, 2, 128, 0);
    assert [128, 2][1..] == [2];
    QuotRemUnique(2, 2, 1, 0);
    QuotRemUnique(0, 1, 0, 0);
    assert [2][1..] == [];
  }

  /** With the corrected checks every plaintext below DBSize gets
      coordinates inside the dimensions, and they denote the plaintext. */
  lemma CheckedIndexesInRange(dbSize: nat, ndim: nat, numEntries: nat, epp: nat, dims: seq<nat>,
                              plaintextIndex: nat)
    requires ndim >= 1 && PirParams.Check(dbSize, ndim, numEntries, epp) == None
    requires dims == PirParams.Dims(PirParams.FirstDim(dbSize, ndim), ndim)
    requires plaintextIndex < dbSize
    ensures forall i :: 0 <= i < ndim ==> QueryIndexesOf(dbSize, dims, plaintextIndex)[i] < dims[i]
    ensures MixedRadix(QueryIndexesOf(dbSize, dims, plaintextIndex), dims) == plaintextIndex
  {
    QueryIndexesExact(dbSize, dims, plaintextIndex);
  }

  // ---------------------------------------------------------------------
  // generate_query: bits_per_ciphertext and the plain query

  /** msg_size = dims[0] + l * (ndim - 1): the expanded slots the query uses. */
  function MsgSize(dims: seq<nat>, l: nat): (s: nat)
    requires |dims| >= 1
    ensures s >= dims[0]
  {
    dims[0] + l * (|dims| - 1)
  }

  /** bits_per_ciphertext: msg_size rounded up to a power of two by uint64
      doubling. */
  method BitsPerCiphertext(msgSize: nat) returns (bits: nat)
    requires 2 * msgSize <= U64
    ensures bits == Pow2(CeilLog2(msgSize))
    ensures msgSize <= bits && (bits == 1 || bits < 2 * msgSize)
  {
    bits := 1;
    ghost var e: nat := 0;
    while bits < msgSize
      invariant bits == Pow2(e) && (e == 0 || Pow2(e - 1) < msgSize)
      decreases msgSize - bits
    {
      SmallDivMod(bits * 2, U64);
      bits := (bits * 2) % U64;
      e := e + 1;
    }
    CeilLog2Is(msgSize, e);
  }

  /** plain_query: N zero coefficients but the one at the first-dimension
      index, which holds the inverse of bits_per_ciphertext modulo t. */
  function PlainQuery(n: nat, index0: nat, inverse: nat): (pt: seq<nat>)
    requires index0 < n
    ensures |pt| == n && pt[index0] == inverse
    ensures forall c :: 0 <= c < n && pt[c] != 0 ==> c == index0
  {
    seq(n, c => if c == index0 then inverse else 0)
  }

  /** When inverse is the inverse of bits_per_ciphertext modulo t, the
      expansion's factor bits_per_ciphertext turns the plain query into the
      unit vector at the first-dimension index. */
  lemma PlainQueryScales(n: nat, index0: nat, inverse: nat, bits: nat, t: nat)
    requires index0 < n && 2 <= t && (bits * inverse) % t == 1
    ensures forall c :: 0 <= c < n ==>
      (PlainQuery(n, index0, inverse)[c] * bits) % t == (if c == index0 then 1 else 0)
  {
  }

  // ---------------------------------------------------------------------
  // generate_query: the gadget values of the later dimensions

  /** The value added at level k modulo q_m: B^(l-1-k) as gsw_gadget
      computes it, times inv[m], the inverse of bits_per_ciphertext that
      try_invert_uint_mod gave for q_m, modulo q_m. Both factors are below
      q_m < 2^64, so the 128-bit product does not wrap. */
  function GadgetCoef(ctx: Context, l: nat, b: nat, inv: seq<nat>, m: nat, k: nat): (v: nat)
    requires Valid(ctx) && m < K(ctx) && |inv| == K(ctx) && k < l
    ensures v < ctx.moduli[m]
  {
    (ShiftModPow(b, l - 1 - k, ctx.moduli[m], U128) * inv[m]) % ctx.moduli[m]
  }

  /** With inv[m] an inverse of bits modulo q_m, the coefficient is the
      gadget power 2^(base_log2*(l-1-k)) mod q_m divided by bits: the query
      expansion multiplies by bits_per_ciphertext and gives the power back. */
  lemma GadgetCoefScales(ctx: Context, l: nat, b: nat, inv: seq<nat>, m: nat, k: nat, bits: nat)
    requires Valid(ctx) && m < K(ctx) && |inv| == K(ctx) && k < l && b <= 64
    requires (bits * inv[m]) % ctx.moduli[m] == 1
    ensures var e: nat := l - 1 - k; (GadgetCoef(ctx, l, b, inv, m, k) * bits) % ctx.moduli[m] == Pow2(b * e) % ctx.moduli[m]
  {
    var q := ctx.moduli[m];
    ShiftModPow128Closed(b, l - 1 - k, q);
    InverseScales(ShiftModPow(b, l - 1 - k, q, U128), inv[m], bits, q);
  }

  /** (g * inv mod q) * bits = g modulo q when bits * inv = 1 modulo q. */
  lemma InverseScales(g: nat, inv: nat, bits: nat, q: nat)
    requires 2 <= q && g < q && (bits * inv) % q == 1
    ensures (((g * inv) % q) * bits) % q == g
  {
    var x, y := g * inv, bits * inv;
    ModMulLeft(x, bits, q);
    assert x * bits == g * y by {
      MulAssoc(g, inv, bits);
    }
    ModMulMod(g, y, q);
    SmallDivMod(g, q);
  }

  /** The first expanded slot of dimension d >= 1: dims[0] + l*(d-1). */
  function SlotStart(d0: nat, l: nat, d: nat): nat
    requires d >= 1
  {
    d0 + l * (d - 1)
  }

  lemma SlotStartSucc(d0: nat, l: nat, d: nat)
    requires d >= 1
    ensures SlotStart(d0, l, d + 1) == SlotStart(d0, l, d) + l
  {
  }

  lemma SlotStartMono(d0: nat, l: nat, a: nat, b: nat)
    requires 1 <= a <= b
    ensures SlotStart(d0, l, a) <= SlotStart(d0, l, b)
  {
    MulMono(a - 1, b - 1, l);
  }

  /** Word c of polynomial 0 after one dimension whose slots start at
      coefficient f: in every block m, the words of levels k < l with k < 5
      gain their gadget coefficient modulo q_m; the other words are kept. */
  function GadgetWord(ctx: Context, p: Poly, f: nat, l: nat, b: nat, inv: seq<nat>, c: nat): nat
    requires Valid(ctx) && IsPoly(ctx, p) && |inv| == K(ctx) && c < Len(ctx)
  {
    var j, m := c % ctx.n, Block(ctx.n, K(ctx), c);
    if f <= j < f + l && j - f < 5 then (p[c] + GadgetCoef(ctx, l, b, inv, m, j - f)) % ctx.moduli[m]
    else p[c]
  }

  function AddGadget(ctx: Context, p: Poly, f: nat, l: nat, b: nat, inv: seq<nat>): (r: Poly)
    requires Valid(ctx) && IsPoly(ctx, p) && |inv| == K(ctx)
    ensures IsPoly(ctx, r)
  {
    seq(Len(ctx), c requires 0 <= c < Len(ctx) => GadgetWord(ctx, p, f, l, b, inv, c))
  }

  /** Polynomial 0 after dimensions 1 .. i-1: only a dimension whose
      coordinate is 1 adds its gadget values. */
  function Inserted(ctx: Context, p: Poly, idx: seq<nat>, d0: nat, l: nat, b: nat, inv: seq<nat>, i: nat): (r: Poly)
    requires Valid(ctx) && IsPoly(ctx, p) && |inv| == K(ctx) && i <= |idx|
    ensures IsPoly(ctx, r)
    decreases i
  {
    if i <= 1 then p
    else
      var prev := Inserted(ctx, p, idx, d0, l, b, inv, i - 1);
      if idx[i - 1] == 1 then AddGadget(ctx, prev, SlotStart(d0, l, i - 1), l, b, inv) else prev
  }

  /** Words outside the slots of dimensions 1 .. i-1, which cover
      [dims[0], SlotStart(i)), keep their value: among them the whole first
      dimension of the query. */
  lemma {:induction false} InsertedOutside(ctx: Context, p: Poly, idx: seq<nat>, d0: nat, l: nat, b: nat,
                                           inv: seq<nat>, i: nat, c: nat)
    requires Valid(ctx) && IsPoly(ctx, p) && |inv| == K(ctx) && 1 <= i <= |idx| && c < Len(ctx)
    requires c % ctx.n < d0 || c % ctx.n >= SlotStart(d0, l, i)
    ensures Inserted(ctx, p, idx, d0, l, b, inv, i)[c] == p[c]
    decreases i
  {
    if i > 1 {
      SlotStartSucc(d0, l, i - 1);
      InsertedOutside(ctx, p, idx, d0, l, b, inv, i - 1, c);
    }
  }

  /** The slot of dimension d at level k in block m: once dimension d is
      done it holds its gadget coefficient added when coordinate d is 1 and
      k < 5, and its old value otherwise; later dimensions leave it alone. */
  lemma {:induction false} InsertedSlot(ctx: Context, p: Poly, idx: seq<nat>, d0: nat, l: nat, b: nat,
                                        inv: seq<nat>, i: nat, d: nat, k: nat, c: nat)
    requires Valid(ctx) && IsPoly(ctx, p) && |inv| == K(ctx) && i <= |idx| && c < Len(ctx)
    requires 1 <= d < i && k < l && c % ctx.n == SlotStart(d0, l, d) + k
    ensures Inserted(ctx, p, idx, d0, l, b, inv, i)[c] ==
      if idx[d] == 1 && k < 5
      then (p[c] + GadgetCoef(ctx, l, b, inv, Block(ctx.n, K(ctx), c), k)) % ModAt(ctx, c)
      else p[c]
    decreases i
  {
    SlotStartSucc(d0, l, d);
    if i - 1 == d {
      InsertedOutside(ctx, p, idx, d0, l, b, inv, d, c);
    } else {
      InsertedSlot(ctx, p, idx, d0, l, b, inv, i - 1, d, k, c);
      SlotStartMono(d0, l, d + 1, i - 1);
    }
  }

  /** Which words one dimension's loops have reached after level k, block m. */
  predicate GadgetDone(ctx: Context, f: nat, k: nat, m: nat, c: nat)
    requires Valid(ctx) && c < Len(ctx)
  {
    var j := c % ctx.n;
    (f <= j < f + k) || (j == f + k && Block(ctx.n, K(ctx), c) < m)
  }

  ghost predicate GadgetUpTo(ctx: Context, p: Poly, r: Poly, f: nat, l: nat, b: nat, inv: seq<nat>, k: nat, m: nat)
    requires Valid(ctx) && IsPoly(ctx, p) && |inv| == K(ctx)
  {
    && IsPoly(ctx, r)
    && forall c :: 0 <= c < Len(ctx) ==>
         r[c] == if GadgetDone(ctx, f, k, m, c) then GadgetWord(ctx, p, f, l, b, inv, c) else p[c]
  }

  /** Writing word m*N + f + k, the next the loops reach. */
  lemma GadgetStep(ctx: Context, p: Poly, r: Poly, f: nat, l: nat, b: nat, inv: seq<nat>, k: nat, m: nat,
                   c0: nat, v: nat)
    requires Valid(ctx) && IsPoly(ctx, p) && |inv| == K(ctx) && k < l && m < K(ctx) && f + l <= ctx.n
    requires GadgetUpTo(ctx, p, r, f, l, b, inv, k, m)
    requires c0 == m * ctx.n + (f + k) && c0 < Len(ctx)
    requires v == if k < 5 then (r[c0] + GadgetCoef(ctx, l, b, inv, m, k)) % ctx.moduli[m] else r[c0]
    ensures GadgetUpTo(ctx, p, r[c0 := v], f, l, b, inv, k, m + 1)
  {
    var r' := r[c0 := v];
    forall c | 0 <= c < Len(ctx)
      ensures r'[c] == if GadgetDone(ctx, f, k, m + 1, c) then GadgetWord(ctx, p, f, l, b, inv, c) else p[c]
    {
      if c == c0 {
        GadgetAt(ctx, p, f, l, b, inv, k, m, c0);
      } else {
        DoneElsewhere(ctx, f, k, m, c, c0);
      }
    }
  }

  /** Word c0 = m*N + f + k is the one the loops write when they reach block
      m at level k. */
  lemma GadgetAt(ctx: Context, p: Poly, f: nat, l: nat, b: nat, inv: seq<nat>, k: nat, m: nat, c0: nat)
    requires Valid(ctx) && IsPoly(ctx, p) && |inv| == K(ctx) && k < l && m < K(ctx) && f + l <= ctx.n
    requires c0 == m * ctx.n + (f + k)
    ensures c0 < Len(ctx) && !GadgetDone(ctx, f, k, m, c0) && GadgetDone(ctx, f, k, m + 1, c0)
    ensures GadgetWord(ctx, p, f, l, b, inv, c0) ==
      if k < 5 then (p[c0] + GadgetCoef(ctx, l, b, inv, m, k)) % ctx.moduli[m] else p[c0]
  {
    BlockWord(ctx.n, K(ctx), m, f + k);
  }

  /** Only word c0 = m*N + f + k joins the words done when block m is. */
  lemma DoneElsewhere(ctx: Context, f: nat, k: nat, m: nat, c: nat, c0: nat)
    requires Valid(ctx) && c < Len(ctx) && m < K(ctx) && f + k < ctx.n
    requires c0 == m * ctx.n + (f + k) && c != c0
    ensures GadgetDone(ctx, f, k, m + 1, c) == GadgetDone(ctx, f, k, m, c)
  {
    BlockSplit(ctx.n, K(ctx), c);
  }

  lemma GadgetLevelDone(ctx: Context, p: Poly, r: Poly, f: nat, l: nat, b: nat, inv: seq<nat>, k: nat)
    requires Valid(ctx) && IsPoly(ctx, p) && |inv| == K(ctx)
    requires GadgetUpTo(ctx, p, r, f, l, b, inv, k, K(ctx))
    ensures GadgetUpTo(ctx, p, r, f, l, b, inv, k + 1, 0)
  {
    forall c | 0 <= c < Len(ctx)
      ensures GadgetDone(ctx, f, k, K(ctx), c) == GadgetDone(ctx, f, k + 1, 0, c)
    {
    }
  }

  /** One dimension of the loop of generate_query: levels k (outer) and
      moduli m (inner), adding the gadget coefficient to word m*N + f + k
      when k < 5. */
  method AddGadgetLevels(ctx: Context, p: Poly, f: nat, l: nat, b: nat, gadget: seq<seq<nat>>, inv: seq<nat>)
    returns (r: Poly)
    requires Valid(ctx) && IsPoly(ctx, p) && |inv| == K(ctx) && f + l <= ctx.n
    requires |gadget| == K(ctx) && forall m :: 0 <= m < K(ctx) ==> |gadget[m]| == l
    requires forall m, k :: 0 <= m < K(ctx) && 0 <= k < l ==>
      gadget[m][k] == ShiftModPow(b, l - 1 - k, ctx.moduli[m], U128)
    ensures r == AddGadget(ctx, p, f, l, b, inv)
  {
    r := p;
    var k := 0;
    while k < l
      invariant k <= l && GadgetUpTo(ctx, p, r, f, l, b, inv, k, 0)
    {
      var modId := 0;
      while modId < K(ctx)
        invariant modId <= K(ctx) && GadgetUpTo(ctx, p, r, f, l, b, inv, k, modId)
      {
        BlockOf(ctx, modId, f + k);
        var pad := modId * ctx.n;
        var mod := ctx.moduli[modId];
        var v := r[pad + f + k];
        if k < 5 {
          var coef := gadget[modId][k] * inv[modId] % mod;
          v := (v + coef) % mod;
        }
        GadgetStep(ctx, p, r, f, l, b, inv, k, modId, pad + f + k, v);
        r := r[pad + f + k := v];
        modId := modId + 1;
      }
      GadgetLevelDone(ctx, p, r, f, l, b, inv, k);
      k := k + 1;
    }
    assert forall c :: 0 <= c < Len(ctx) ==> r[c] == AddGadget(ctx, p, f, l, b, inv)[c];
  }

  /** The loop over the dimensions after the first: filled_cnt starts at
      dims[0] and advances by l per dimension. */
  method InsertGadgets(ctx: Context, p: Poly, idx: seq<nat>, d0: nat, l: nat, b: nat, gadget: seq<seq<nat>>,
                       inv: seq<nat>) returns (r: Poly)
    requires Valid(ctx) && IsPoly(ctx, p) && |inv| == K(ctx) && |idx| >= 1
    requires SlotStart(d0, l, |idx|) <= ctx.n
    requires |gadget| == K(ctx) && forall m :: 0 <= m < K(ctx) ==> |gadget[m]| == l
    requires forall m, k :: 0 <= m < K(ctx) && 0 <= k < l ==>
      gadget[m][k] == ShiftModPow(b, l - 1 - k, ctx.moduli[m], U128)
    ensures r == Inserted(ctx, p, idx, d0, l, b, inv, |idx|)
  {
    r := p;
    var filledCnt := d0;
    var i := 1;
    while i < |idx|
      invariant 1 <= i <= |idx| && filledCnt == SlotStart(d0, l, i)
      invariant r == Inserted(ctx, p, idx, d0, l, b, inv, i)
    {
      SlotStartSucc(d0, l, i);
      SlotStartMono(d0, l, i + 1, |idx|);
      if idx[i] == 1 {
        r := AddGadgetLevels(ctx, r, filledCnt, l, b, gadget, inv);
      }
      filledCnt := filledCnt + l;
      i := i + 1;
    }
  }

  /** Every word stays reduced modulo its block's modulus. */
  lemma {:induction false} InsertedReduced(ctx: Context, p: Poly, idx: seq<nat>, d0: nat, l: nat, b: nat,
                                           inv: seq<nat>, i: nat)
    requires Valid(ctx) && Reduced(ctx, p) && |inv| == K(ctx) && i <= |idx|
    ensures Reduced(ctx, Inserted(ctx, p, idx, d0, l, b, inv, i))
    decreases i
  {
    if i > 1 {
      InsertedReduced(ctx, p, idx, d0, l, b, inv, i - 1);
    }
  }

  /** The inverses of bits_per_ciphertext modulo each q_m. */
  function Inverses(ctx: Context, bits: nat, invert: (nat, nat) -> nat): (inv: seq<nat>)
    ensures |inv| == K(ctx)
  {
    seq(K(ctx), m requires 0 <= m < K(ctx) => invert(bits, ctx.moduli[m]))
  }

  /** What generate_query needs of its inputs: dimensions that multiply to
      DBSize, an entry inside the database, and slots of the later
      dimensions that fit in the N coefficients. */
  predicate QueryInputs(ctx: Context, dims: seq<nat>, dbSize: nat, epp: nat, l: nat, entryIndex: nat)
  {
    && Valid(ctx)
    && |dims| >= 1 && (forall i :: 0 <= i < |dims| ==> dims[i] >= 1) && Product(dims) == dbSize
    && epp >= 1 && PlainIndex(entryIndex, epp) < dbSize && MsgSize(dims, l) <= ctx.n
  }

  /** The query generate_query returns for entry entryIndex: the encryption
      of the plain query, with the gadget values of the later dimensions
      added to its first polynomial. */
  function QueryOf(ctx: Context, s: Seal, t: nat, dims: seq<nat>, dbSize: nat, epp: nat, l: nat, b: nat,
                   invert: (nat, nat) -> nat, entryIndex: nat): (query: Ct)
    requires QueryInputs(ctx, dims, dbSize, epp, l, entryIndex) && SealValid(ctx, s)
    ensures IsCt2(ctx, query)
  {
    var index := PlainIndex(entryIndex, epp);
    var idx := QueryIndexesOf(dbSize, dims, index);
    QueryIndexesExact(dbSize, dims, index);
    var bits := Pow2(CeilLog2(MsgSize(dims, l)));
    var enc := s.encrypt(PlainQuery(ctx.n, idx[0], invert(bits, t)));
    var inv := Inverses(ctx, bits, invert);
    InsertedReduced(ctx, enc[0], idx, dims[0], l, b, inv, |dims|);
    [Inserted(ctx, enc[0], idx, dims[0], l, b, inv, |dims|), enc[1]]
  }

  /** generate_query. try_invert_uint_mod is the parameter invert; its
      result for bits_per_ciphertext modulo t goes to the first-dimension
      coefficient and its results modulo each q_m scale the gadget. */
  method GenerateQuery(ctx: Context, s: Seal, t: nat, dims: seq<nat>, dbSize: nat, epp: nat, l: nat, b: nat,
                       invert: (nat, nat) -> nat, entryIndex: nat) returns (query: Ct)
    requires QueryInputs(ctx, dims, dbSize, epp, l, entryIndex) && SealValid(ctx, s)
    requires b < 128
    ensures query == QueryOf(ctx, s, t, dims, dbSize, epp, l, b, invert, entryIndex)
  {
    QuotRemIsDivMod(entryIndex, epp);
    var plaintextIndex := entryIndex / epp;
    var queryIndexes := GetQueryIndexes(dbSize, dims, plaintextIndex);
    QueryIndexesExact(dbSize, dims, plaintextIndex);
    var coeffCount := ctx.n;
    var msgSize := dims[0] + l * (|dims| - 1);
    var bitsPerCiphertext := BitsPerCiphertext(msgSize);
    var inverse := invert(bitsPerCiphertext, t);
    var plainQuery := MakePlainQuery(coeffCount, queryIndexes[0], inverse);
    var enc := s.encrypt(plainQuery);
    var inv := ModulusInverses(ctx, bitsPerCiphertext, invert);
    var gadget := GswGadget(l, b, K(ctx), ctx.moduli);
    assert SlotStart(dims[0], l, |queryIndexes|) == msgSize;
    var poly0 := InsertGadgets(ctx, enc[0], queryIndexes, dims[0], l, b, gadget, inv);
    query := [poly0, enc[1]];
    QueryOfIs(ctx, s, t, dims, dbSize, epp, l, b, invert, entryIndex, queryIndexes, bitsPerCiphertext, enc, inv);
  }

  /** seal::Plaintext plain_query(coeff_count), then the one coefficient set. */
  method MakePlainQuery(coeffCount: nat, index0: nat, inverse: nat) returns (plainQuery: seq<nat>)
    requires index0 < coeffCount
    ensures plainQuery == PlainQuery(coeffCount, index0, inverse)
  {
    plainQuery := seq(coeffCount, _ => 0);
    plainQuery := plainQuery[index0 := inverse];
  }

  /** The loop filling inv[k] with try_invert_uint_mod(bits, q_k). */
  method ModulusInverses(ctx: Context, bits: nat, invert: (nat, nat) -> nat) returns (inv: seq<nat>)
    ensures inv == Inverses(ctx, bits, invert)
  {
    ghost var invs := Inverses(ctx, bits, invert);
    inv := [];
    var k := 0;
    while k < K(ctx)
      invariant k <= K(ctx) && inv == invs[..k]
    {
      assert invs[..k + 1] == invs[..k] + [invert(bits, ctx.moduli[k])];
      inv := inv + [invert(bits, ctx.moduli[k])];
      k := k + 1;
    }
    assert inv == invs;
  }

  /** QueryOf from its intermediate values. */
  lemma QueryOfIs(ctx: Context, s: Seal, t: nat, dims: seq<nat>, dbSize: nat, epp: nat, l: nat, b: nat,
                  invert: (nat, nat) -> nat, entryIndex: nat, idx: seq<nat>, bits: nat, enc: Ct, inv: seq<nat>)
    requires QueryInputs(ctx, dims, dbSize, epp, l, entryIndex) && SealValid(ctx, s)
    requires idx == QueryIndexesOf(dbSize, dims, PlainIndex(entryIndex, epp)) && |idx| >= 1 && idx[0] < ctx.n
    requires bits == Pow2(CeilLog2(MsgSize(dims, l)))
    requires enc == s.encrypt(PlainQuery(ctx.n, idx[0], invert(bits, t)))
    requires inv == Inverses(ctx, bits, invert)
    ensures IsCt2(ctx, enc)
    ensures QueryOf(ctx, s, t, dims, dbSize, epp, l, b, invert, entryIndex)
      == [Inserted(ctx, enc[0], idx, dims[0], l, b, inv, |dims|), enc[1]]
  {
  }

  // ---------------------------------------------------------------------
  // create_galois_keys

  /** The element list after the leading 1: N / 2^cf + 1, doubling (less
      one) up to N + 1, for N = 2^logN. */
  function GaloisTail(logN: nat, cf: nat): (t: seq<nat>)
    requires cf <= logN
    ensures |t| == cf + 1
  {
    seq(cf + 1, j requires 0 <= j <= cf => GaloisElt(logN, cf, j))
  }

  /** Element j after the leading 1: 2^(logN - cf + j) + 1. */
  function GaloisElt(logN: nat, cf: nat, j: nat): nat
    requires cf <= logN
  {
    Pow2(logN - cf + j) + 1
  }

  /** The compression factor: floor(log2(dims[0] + 2 l (ndim - 1))). */
  function CompressionFactor(dims: seq<nat>, l: nat): nat
    requires |dims| >= 1 && dims[0] >= 1
  {
    FloorLog2(dims[0] + l * (|dims| - 1) * 2)
  }

  /** min_ele = N / 2^cf + 1, the first element after the leading 1: for
      N = 2^logN it is 2^(logN - cf) + 1. */
  function MinElement(n: nat, cf: nat): (m: nat)
    requires IsPow2(n) && Pow2(cf) <= n
    ensures cf <= FloorLog2(n) && m == Pow2(FloorLog2(n) - cf) + 1
  {
    IsPow2Exp(n);
    Pow2MonoInv(cf, FloorLog2(n));
    Pow2Div(FloorLog2(n), cf);
    n / Pow2(cf) + 1
  }

  /** An element that passes the loop test i <= N + 1 is element k of the
      tail, and (i - 1) * 2 + 1 is element k + 1. */
  lemma GaloisStep(e: nat, cf: nat, k: nat, i: nat)
    requires cf <= e && i == GaloisElt(e, cf, k) && i <= Pow2(e) + 1
    ensures k <= cf
    ensures GaloisTail(e, cf)[..k + 1] == GaloisTail(e, cf)[..k] + [i]
    ensures (i - 1) * 2 + 1 == GaloisElt(e, cf, k + 1)
  {
    Pow2MonoInv(e - cf + k, e);
    assert e - cf + (k + 1) == (e - cf + k) + 1;
  }

  /** An element that fails the loop test lies past the tail. */
  lemma GaloisExit(e: nat, cf: nat, k: nat, i: nat)
    requires cf <= e && k <= cf + 1 && i == GaloisElt(e, cf, k) && i > Pow2(e) + 1
    ensures k == cf + 1 && GaloisTail(e, cf)[..k] == GaloisTail(e, cf)
  {
    if k <= cf {
      Pow2Mono(e - cf + k, e);
    }
  }

  /** The Galois elements of create_galois_keys: 1, then i from
      N / 2^cf + 1 while i <= N + 1, with i := (i - 1) * 2 + 1. */
  method GaloisElements(n: nat, dims: seq<nat>, l: nat) returns (elts: seq<nat>)
    requires IsPow2(n) && |dims| >= 1 && dims[0] >= 1
    requires Pow2(CompressionFactor(dims, l)) <= n
    ensures FloorLog2(n) >= CompressionFactor(dims, l)
    ensures elts == [1] + GaloisTail(FloorLog2(n), CompressionFactor(dims, l))
    ensures elts[1] == MinElement(n, CompressionFactor(dims, l))
    ensures elts[|elts| - 1] == n + 1
  {
    var cf := CompressionFactor(dims, l);
    elts := GaloisLoop(n, cf);
  }

  /** The loop of create_galois_keys for compression factor cf. */
  method GaloisLoop(n: nat, cf: nat) returns (elts: seq<nat>)
    requires IsPow2(n) && Pow2(cf) <= n
    ensures FloorLog2(n) >= cf
    ensures elts == [1] + GaloisTail(FloorLog2(n), cf)
    ensures elts[1] == MinElement(n, cf)
    ensures elts[|elts| - 1] == n + 1
  {
    var minEle := MinElement(n, cf);
    ghost var e := FloorLog2(n);
    IsPow2Exp(n);
    elts := [1];
    var i := minEle;
    ghost var k: nat := 0;
    while i <= n + 1
      invariant k <= cf + 1 && |elts| == k + 1
      invariant i == GaloisElt(e, cf, k)
      invariant elts == [1] + GaloisTail(e, cf)[..k]
      decreases cf + 1 - k
    {
      GaloisStep(e, cf, k, i);
      elts := elts + [i];
      i := (i - 1) * 2 + 1;
      k := k + 1;
    }
    GaloisExit(e, cf, k, i);
    assert elts[1] == GaloisTail(e, cf)[0] && elts[|elts| - 1] == GaloisTail(e, cf)[cf];
    assert e - cf + cf == e;
  }

  // ---------------------------------------------------------------------
  // get_entry_from_plaintext

  /** Byte i of x: bits 8i to 8i + 7. */
  function ByteAt(x: nat, i: nat): (b: Byte)
    ensures b == Digit(x, i, 8)
  {
    ShrLow(Shr(x, i * 8), 8);
    assert Pow2(8) == 256;
    Digit(x, i, 8)
  }

  function EntryByte(x: nat, first: nat, k: nat): Byte
  {
    ByteAt(x, first + k)
  }

  /** The entry stored from byte first on: es bytes of the little-endian
      bit stream that the plaintext's bpc-bit coefficients form. */
  function EntryOf(pt: seq<nat>, bpc: nat, first: nat, es: nat): (e: seq<Byte>)
    ensures |e| == es
  {
    seq(es, k requires 0 <= k < es => EntryByte(LeNum(pt, bpc), first, k))
  }

  lemma EntryOfSnoc(pt: seq<nat>, bpc: nat, first: nat, k: nat)
    ensures EntryOf(pt, bpc, first, k + 1) == EntryOf(pt, bpc, first, k) + [ByteAt(LeNum(pt, bpc), first + k)]
  {
  }

  /** The first buffer: coefficient start / bpc shifted right by start % bpc
      (Quot and Rem) holds the bpc - start % bpc bits of the stream from bit start on. */
  lemma InitialBuffer(pt: seq<nat>, bpc: nat, x: nat, start: nat)
    requires bpc >= 1 && AllBelow(pt, Pow2(bpc)) && x == LeNum(pt, bpc) && start < |pt| * bpc
    ensures Quot(start, bpc) < |pt|
    ensures Shr(pt[Quot(start, bpc)], Rem(start, bpc)) == Low(Shr(x, start), bpc - Rem(start, bpc))
    ensures (bpc - Rem(start, bpc)) + start == (Quot(start, bpc) + 1) * bpc
  {
    QuotRem(start, bpc);
    var ci, coff := Quot(start, bpc), Rem(start, bpc);
    var ciw := ci * bpc;
    NextInRange(|pt|, bpc, ci, ciw, start + 1);
    CoefficientBits(pt, bpc, x, ci, ciw);
    ShrLowComm(Shr(x, ciw), coff, bpc - coff);
    assert coff + (bpc - coff) == bpc;
    ShrAdd(x, ciw, coff);
    MulSuccLeft(ci, bpc);
  }

  /** Taking a byte off a buffer of at least eight bits: the byte is the
      next byte of the stream and the buffer keeps the bits after it. */
  lemma EmitStep(x: nat, pos: nat, off: nat, buf: nat)
    requires off >= 8 && buf == Low(Shr(x, pos), off)
    ensures And(buf, 255) == Low(Shr(x, pos), 8)
    ensures Shr(buf, 8) == Low(Shr(x, pos + 8), off - 8)
  {
    AndLowMask(buf, 8);
    assert Pow2(8) - 1 == 255;
    LowLow(Shr(x, pos), 8, off);
    ShrLowComm(Shr(x, pos), 8, off - 8);
    assert 8 + (off - 8) == off;
    ShrAdd(x, pos, 8);
  }

  /** Refilling a buffer of fewer than eight bits with the next coefficient
      appends that coefficient's bpc bits. */
  lemma ReadStep(pt: seq<nat>, bpc: nat, x: nat, pos: nat, off: nat, ci: nat, buf: nat, nxt: nat)
    requires bpc >= 1 && AllBelow(pt, Pow2(bpc)) && x == LeNum(pt, bpc)
    requires off < 8 && buf == Low(Shr(x, pos), off)
    requires nxt == (ci + 1) * bpc && off + pos == nxt && pos + 8 <= |pt| * bpc
    ensures ci + 1 < |pt|
    ensures Or(buf, Shl(pt[ci + 1], off)) == Low(Shr(x, pos), off + bpc)
    ensures nxt + bpc == (ci + 1 + 1) * bpc
  {
    NextInRange(|pt|, bpc, ci + 1, nxt, pos + 8);
    var y, d := Shr(x, pos), pt[ci + 1];
    CoefficientBits(pt, bpc, x, ci + 1, nxt);
    ShrAdd(x, pos, off);
    AppendBits(y, off, bpc, buf, d);
    MulSuccLeft(ci + 1, bpc);
  }

  /** Coefficient i holds bits i*bpc to i*bpc + bpc - 1 of the stream. */
  lemma CoefficientBits(pt: seq<nat>, bpc: nat, x: nat, i: nat, iw: nat)
    requires AllBelow(pt, Pow2(bpc)) && x == LeNum(pt, bpc) && i < |pt| && iw == i * bpc
    ensures Low(Shr(x, iw), bpc) == pt[i]
  {
    LeNumDigit(pt, bpc, i);
  }

  /** Or-ing the next bpc bits of y above the off bits already held. */
  lemma AppendBits(y: nat, off: nat, bpc: nat, buf: nat, d: nat)
    requires buf == Low(y, off) && d == Low(Shr(y, off), bpc)
    ensures Or(buf, Shl(d, off)) == Low(y, off + bpc)
  {
    var p := Pow2(off);
    LowSplit(y, off, bpc);
    LowBelow(y, off);
    OrDisjoint(buf, d, off);
    assert d * p == p * d;
  }

  /** A coefficient whose first bit lies before a bound inside the plaintext
      is a coefficient of the plaintext. */
  lemma NextInRange(len: nat, bpc: nat, i: nat, iw: nat, bound: nat)
    requires iw == i * bpc && iw < bound && bound <= len * bpc
    ensures i < len
  {
    if i >= len {
      MulMono(len, i, bpc);
    }
  }

  /** The loop of get_entry_from_plaintext from byte first on: a 128-bit
      buffer of data_offset bits, emptied eight bits at a time and refilled
      with the next coefficient shifted left by data_offset. */
  method ReadEntry(pt: seq<nat>, bpc: nat, first: nat, es: nat) returns (result: seq<Byte>)
    requires 1 <= bpc <= 64 && AllBelow(pt, Pow2(bpc))
    requires first * 8 < |pt| * bpc && (first + es) * 8 <= |pt| * bpc
    ensures result == EntryOf(pt, bpc, first, es)
  {
    ghost var x := LeNum(pt, bpc);
    var start := first * 8;
    var coeffIndex := Quot(start, bpc);
    var coeffOffset := Rem(start, bpc);
    InitialBuffer(pt, bpc, x, start);
    var dataBuffer := Shr(pt[coeffIndex], coeffOffset);
    var dataOffset: nat := bpc - coeffOffset;
    result := [];
    ghost var pos, nxt := start, (coeffIndex + 1) * bpc;
    while |result| < es
      invariant |result| <= es && pos == (first + |result|) * 8
      invariant coeffIndex < |pt|
      invariant dataBuffer == Low(Shr(x, pos), dataOffset)
      invariant dataOffset + pos == nxt && nxt == (coeffIndex + 1) * bpc
      invariant result == EntryOf(pt, bpc, first, |result|)
      decreases es - |result|, if dataOffset < 8 then 8 - dataOffset else 0
    {
      MulSuccLeft(first + |result|, 8);
      if dataOffset >= 8 {
        EmitStep(x, pos, dataOffset, dataBuffer);
        EntryOfSnoc(pt, bpc, first, |result|);
        result := result + [And(dataBuffer, 255)];
        dataBuffer := Shr(dataBuffer, 8);
        dataOffset := dataOffset - 8;
        pos := pos + 8;
      } else {
        MulMono(first + |result| + 1, first + es, 8);
        ReadStep(pt, bpc, x, pos, dataOffset, coeffIndex, dataBuffer, nxt);
        coeffIndex := coeffIndex + 1;
        nxt := nxt + bpc;
        var nextBuffer := pt[coeffIndex];
        dataBuffer := Or(dataBuffer, Shl(nextBuffer, dataOffset));
        dataOffset := dataOffset + bpc;
      }
    }
  }

  /** get_entry_from_plaintext: the entry entry_index % epp of the
      plaintext, entry_size bytes from bit (entry_index % epp) *
      entry_size * 8 on. */
  method GetEntryFromPlaintext(entryIndex: nat, pt: seq<nat>, epp: nat, es: nat, bpc: nat) returns (result: seq<Byte>)
    requires epp >= 1 && 1 <= bpc <= 64 && |pt| >= 1 && AllBelow(pt, Pow2(bpc))
    requires (Rem(entryIndex, epp) * es + es) * 8 <= |pt| * bpc
    ensures |result| == es
    ensures result == EntryOf(pt, bpc, Rem(entryIndex, epp) * es, es)
  {
    QuotRemIsDivMod(entryIndex, epp);
    var first := (entryIndex % epp) * es;
    if es == 0 {
      MulMono(1, |pt|, bpc);
    }
    result := ReadEntry(pt, bpc, first, es);
  }

  // ---------------------------------------------------------------------
  // get_value_from_replies

  datatype ReplyError =
    | ReserveTooLarge  // reply1 shorter than the key: reserve of a wrapped size
    | EntryTooSmall    // "Entry size is too small"

  /** The value stored behind the hashed key in one of the two replies:
      reply1 is tried first, then reply2; no match gives the empty entry. */
  function ValueFromReplies(reply1: seq<Byte>, reply2: seq<Byte>, hashedKey: seq<Byte>): (r: Result<seq<Byte>, ReplyError>)
    ensures r.Err? <==> |reply1| < |hashedKey| || |reply2| < |hashedKey|
    ensures r == Err(ReserveTooLarge) <==> |reply1| < |hashedKey|
    ensures r.Ok? && hashedKey <= reply1 ==> reply1 == hashedKey + r.value
    ensures r.Ok? && !(hashedKey <= reply1) && hashedKey <= reply2 ==> reply2 == hashedKey + r.value
    ensures r.Ok? && !(hashedKey <= reply1) && !(hashedKey <= reply2) ==> r.value == []
  {
    if |reply1| < |hashedKey| then Err(ReserveTooLarge)
    else if |reply2| < |hashedKey| then Err(EntryTooSmall)
    else if reply1[..|hashedKey|] == hashedKey then Ok(reply1[|hashedKey|..])
    else if reply2[..|hashedKey|] == hashedKey then Ok(reply2[|hashedKey|..])
    else Ok([])
  }

  /** A reply made of the key and a value yields that value, whatever the
      other reply holds, as long as it is long enough. */
  lemma KeyedReplyFound(key: seq<Byte>, value: seq<Byte>, other: seq<Byte>)
    requires |other| >= |key|
    ensures ValueFromReplies(key + value, other, key) == Ok(value)
    ensures !(key <= other) ==> ValueFromReplies(other, key + value, key) == Ok(value)
  {
    assert (key + value)[..|key|] == key;
    assert (key + value)[|key|..] == value;
  }
}
