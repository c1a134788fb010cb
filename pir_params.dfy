/** src/includes/pir.h, the PirParams constructor: the shape of the
    database (first dimension and the dimensions after it), the three
    validity checks that throw, and the digit width base_log2 of the two GSW
    evaluators. The number of entries per plaintext and the number of bits
    per coefficient come from src/pir.cpp, which is not part of this model:
    they are inputs. The coefficient moduli are an input as well (SEAL's
    CoeffModulus::BFVDefault). */
module PirParams {
  import opened Arith
  import opened Wrappers
  import ExternalProd

  datatype ParamError =
    | FirstDimTooSmall   // "Size of first dimension is too small"
    | NotPowerOfTwo      // "Size of database is not a power of 2"
    | TooManyEntries     // "Number of entries in database is too large"

  /** What a successfully constructed PirParams holds. */
  datatype Params = Params(
    dbSize: nat,                 // DBSize_: number of plaintexts
    dims: seq<nat>,              // dims_
    numEntries: nat,             // num_entries_
    entrySize: nat,              // entry_size_, in bytes
    epp: nat,                    // get_num_entries_per_plaintext()
    bpc: nat,                    // get_num_bits_per_coeff()
    dataGsw: ExternalProd.Eval,  // data_gsw: l and base_log2_
    keyGsw: ExternalProd.Eval)   // key_gsw: l_key and its base_log2

  /** first_dim = DBSize >> (ndim - 1): the largest fd with
      fd * 2^(ndim-1) <= DBSize. */
  function FirstDim(dbSize: nat, ndim: nat): (fd: nat)
    requires ndim >= 1
    ensures fd * Pow2(ndim - 1) <= dbSize < fd * Pow2(ndim - 1) + Pow2(ndim - 1)
  {
    ShrLow(dbSize, ndim - 1);
    var fd, p := Shr(dbSize, ndim - 1), Pow2(ndim - 1);
    assert p * fd == fd * p;
    fd
  }

  /** The checks of the constructor as written: the power-of-two test is
      applied to first_dim, and DBSize * entries_per_plaintext is a uint64
      product that wraps. */
  function CheckAsWritten(dbSize: nat, ndim: nat, numEntries: nat, epp: nat): (r: Option<ParamError>)
    requires ndim >= 1
    ensures r == Some(FirstDimTooSmall) <==> FirstDim(dbSize, ndim) < 128
    ensures r == Some(NotPowerOfTwo) <==> FirstDim(dbSize, ndim) >= 128 && !IsPow2(FirstDim(dbSize, ndim))
    ensures r == None <==>
      FirstDim(dbSize, ndim) >= 128 && IsPow2(FirstDim(dbSize, ndim)) && (dbSize * epp) % U64 >= numEntries
  {
    var fd := FirstDim(dbSize, ndim);
    if fd < 128 then Some(FirstDimTooSmall)
    else
      AndPredIsPow2(fd);
      if And(fd, fd - 1) != 0 then Some(NotPowerOfTwo)
      else if (dbSize * epp) % U64 < numEntries then Some(TooManyEntries)
      else None
  }

  /** The checks as the error message means them: the power-of-two test
      is applied to DBSize itself, so that the dimensions cover exactly
      DBSize plaintexts. */
  function Check(dbSize: nat, ndim: nat, numEntries: nat, epp: nat): (r: Option<ParamError>)
    requires ndim >= 1
    ensures r == Some(FirstDimTooSmall) <==> FirstDim(dbSize, ndim) < 128
    ensures r == Some(NotPowerOfTwo) <==> FirstDim(dbSize, ndim) >= 128 && !IsPow2(dbSize)
    ensures r == None <==>
      FirstDim(dbSize, ndim) >= 128 && IsPow2(dbSize) && (dbSize * epp) % U64 >= numEntries
    ensures r == None ==>
      && IsPow2(FirstDim(dbSize, ndim))
      && FirstDim(dbSize, ndim) * Pow2(ndim - 1) == dbSize
      && CheckAsWritten(dbSize, ndim, numEntries, epp) == None
  {
    var fd := FirstDim(dbSize, ndim);
    if fd < 128 then Some(FirstDimTooSmall)
    else
      AndPredIsPow2(dbSize);
      if And(dbSize, dbSize - 1) != 0 then Some(NotPowerOfTwo)
      else if (dbSize * epp) % U64 < numEntries then Some(TooManyEntries)
      else
        PowerOfTwoSplits(dbSize, ndim - 1);
        None
  }

  /** A power of two shifted right without vanishing is a power of two
      that, shifted back, restores it. */
  lemma PowerOfTwoSplits(x: nat, k: nat)
    requires IsPow2(x) && Shr(x, k) >= 1
    ensures IsPow2(Shr(x, k)) && Shr(x, k) * Pow2(k) == x
  {
    IsPow2Exp(x);
    var e := FloorLog2(x);
    if k <= e {
      var y := Pow2(e - k);
      ShrOfPow2(x, k, e, y);
      Pow2IsPow2(e - k);
    } else {
      ShrVanishes(x, k, e);
    }
  }

  /** 2^e >> k = 2^(e-k) for k <= e. */
  lemma ShrOfPow2(x: nat, k: nat, e: nat, y: nat)
    requires x == Pow2(e) && k <= e && y == Pow2(e - k)
    ensures Shr(x, k) == y && y * Pow2(k) == x
  {
    Pow2Add(k, e - k);
    assert k + (e - k) == e;
    ShrLowUnique(x, k, 0, y);
  }

  /** 2^e >> k = 0 for k > e. */
  lemma ShrVanishes(x: nat, k: nat, e: nat)
    requires x == Pow2(e) && k > e
    ensures Shr(x, k) == 0
  {
    Pow2StrictMono(e, k);
    ShrLowUnique(x, k, x, 0);
  }

  function Twos(k: nat): (t: seq<nat>)
    ensures |t| == k
  {
    seq(k, _ => 2)
  }

  lemma {:induction false} TwosProduct(k: nat)
    ensures Product(Twos(k)) == Pow2(k)
  {
    if k > 0 {
      assert Twos(k)[1..] == Twos(k - 1);
      TwosProduct(k - 1);
    }
  }

  /** dims_: first_dim followed by ndim - 1 dimensions of size 2; they
      multiply to first_dim * 2^(ndim-1). */
  function Dims(fd: nat, ndim: nat): (dims: seq<nat>)
    ensures |dims| == ndim
    ensures ndim >= 1 ==> dims[0] == fd && Product(dims) == fd * Pow2(ndim - 1)
    ensures forall i :: 1 <= i < ndim ==> dims[i] == 2
  {
    var d := seq(ndim, i => if i == 0 then fd else 2);
    if ndim == 0 then d
    else
      assert d[1..] == Twos(ndim - 1);
      TwosProduct(ndim - 1);
      d
  }

  /** The number of significant bits of q (Modulus::bit_count). */
  function BitCount(q: nat): (r: nat)
    ensures q < Pow2(r)
    ensures q >= 1 ==> r >= 1 && Pow2(r - 1) <= q
    ensures q == 0 ==> r == 0
  {
    if q == 0 then 0 else FloorLog2(q) + 1
  }

  function BitCounts(moduli: seq<nat>): (r: seq<nat>)
    ensures |r| == |moduli|
  {
    seq(|moduli|, i requires 0 <= i < |moduli| => BitCount(moduli[i]))
  }

  /** bits: the bit counts of all moduli but the last (the special prime). */
  method ModulusBits(moduli: seq<nat>) returns (bits: nat)
    requires |moduli| >= 1
    ensures bits == Sum(BitCounts(moduli[..|moduli| - 1]))
  {
    bits := 0;
    var i := 0;
    while i < |moduli| - 1
      invariant 0 <= i <= |moduli| - 1
      invariant bits == Sum(BitCounts(moduli[..i]))
    {
      assert BitCounts(moduli[..i + 1])[..i] == BitCounts(moduli[..i]);
      bits := bits + BitCount(moduli[i]);
      i := i + 1;
    }
  }

  /** (bits + l - 1) / l: the least number of l-digit blocks that cover
      bits bits. */
  function CeilDiv(bits: nat, l: nat): (r: nat)
    requires l >= 1
    ensures bits <= l * r
    ensures r >= 1 ==> l * (r - 1) < bits
  {
    QuotRem(bits + l - 1, l);
    Quot(bits + l - 1, l)
  }

  /** The constructor. It throws in the order of the source: the first
      dimension check, the power-of-two check (here on DBSize), then the
      capacity check. */
  method Create(dbSize: nat, ndim: nat, numEntries: nat, entrySize: nat, l: nat, lKey: nat,
                epp: nat, bpc: nat, moduli: seq<nat>) returns (r: Result<Params, ParamError>)
    requires ndim >= 1 && l >= 1 && lKey >= 1 && |moduli| >= 1
    ensures r.Err? <==> Check(dbSize, ndim, numEntries, epp).Some?
    ensures r.Err? ==> Check(dbSize, ndim, numEntries, epp) == Some(r.error)
    ensures r.Ok? ==>
      var bits := Sum(BitCounts(moduli[..|moduli| - 1]));
      r.value == Params(dbSize, Dims(FirstDim(dbSize, ndim), ndim), numEntries, entrySize, epp, bpc,
                        ExternalProd.Eval(l, CeilDiv(bits, l)), ExternalProd.Eval(lKey, CeilDiv(bits, lKey)))
    ensures r.Ok? ==>
      && |r.value.dims| == ndim && r.value.dims[0] >= 128
      && (forall i :: 1 <= i < ndim ==> r.value.dims[i] == 2)
      && Product(r.value.dims) == dbSize
      && Sum(BitCounts(moduli[..|moduli| - 1])) <= l * r.value.dataGsw.baseLog2
      && Sum(BitCounts(moduli[..|moduli| - 1])) <= lKey * r.value.keyGsw.baseLog2
  {
    var firstDim := FirstDim(dbSize, ndim);
    if firstDim < 128 {
      return Err(FirstDimTooSmall);
    }
    MulMono(1, firstDim, Pow2(ndim - 1));
    AndPredIsPow2(dbSize);
    if And(dbSize, dbSize - 1) != 0 {
      return Err(NotPowerOfTwo);
    }
    var dims := [firstDim];
    var i := 1;
    while i < ndim
      invariant 1 <= i <= ndim
      invariant dims == Dims(firstDim, i)
    {
      dims := dims + [2];
      i := i + 1;
    }
    if (dbSize * epp) % U64 < numEntries {
      return Err(TooManyEntries);
    }
    var bits := ModulusBits(moduli);
    var baseLog2 := (bits + l - 1) / l;
    var keyBaseLog2 := (bits + lKey - 1) / lKey;
    QuotRemIsDivMod(bits + l - 1, l);
    QuotRemIsDivMod(bits + lKey - 1, lKey);
    r := Ok(Params(dbSize, dims, numEntries, entrySize, epp, bpc,
                   ExternalProd.Eval(l, baseLog2), ExternalProd.Eval(lKey, keyBaseLog2)));
  }

  /** DBSize = 257 with two dimensions passes the checks as written although
      it is no power of two: first_dim = 128 and the dimensions [128, 2]
      cover only 256 of the 257 plaintexts. The corrected check rejects it. */
  lemma AsWrittenAcceptsNonPowerOfTwo()
    ensures CheckAsWritten(257, 2, 257, 1) == None
    ensures Dims(FirstDim(257, 2), 2) == [128, 2]
    ensures Product(Dims(FirstDim(257, 2), 2)) == 256
    ensures Check(257, 2, 257, 1) == Some(NotPowerOfTwo)
  {
    assert Shr(257, 1) == 128;
    assert Pow2(7) == 128;
    Pow2IsPow2(7);
    assert !IsPow2(257);
    assert Dims(128, 2) == [128, 2];
    assert Product([128, 2]) == 256 by {
      assert [128, 2][1..] == [2];
    }
  }
}
