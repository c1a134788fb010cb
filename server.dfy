/** src/server.cpp: the PIR server. set_database stores the packed
    plaintexts; expand_query turns the client's one ciphertext into 2^e
    selection ciphertexts; evaluate_first_dim_delayed_mod takes the dot
    product of the first dims[0] of them with the columns of the database;
    every later dimension halves the result with evaluate_gsw_product,
    selecting with a GSW ciphertext built from l more expanded slots. */
module Server {
  import opened Arith
  import opened Digits
  import opened Rns
  import opened Utils
  import opened Wrappers
  import opened Accum
  import opened ExternalProd
  import Client
  import Database
  import PirParams

  /** A database slot: a plaintext, or absent (std::nullopt). */
  type Slot = Option<seq<nat>>

  // ---------------------------------------------------------------------
  // set_database and preprocess_ntt

  /** The slots set_database pushes before the NTT: one per whole group of
      entries (absent when sum_size = epp * entry_size is zero), then absent
      slots up to DBSize. */
  function PackedSlots(padded: seq<seq<Byte>>, epp: nat, es: nat, bpc: nat, n: nat, dbSize: nat): (db: seq<Slot>)
    requires epp >= 1 && Database.Packable(padded, epp, es)
  {
    var p := Database.PlaintextCount(|padded|, epp);
    var size := if p < dbSize then dbSize else p;
    seq(size, i requires 0 <= i < size =>
      if i < p && epp * es != 0 then Some(Database.PlaintextOf(padded, epp, es, bpc, n, i)) else None)
  }

  function NttSlot(s: Seal, slot: Slot): Slot
  {
    match slot
    case Some(pt) => Some(s.nttPlain(pt))
    case None => None
  }

  /** preprocess_ntt: every present plaintext transformed to the NTT domain. */
  function NttSlots(s: Seal, db: seq<Slot>): (r: seq<Slot>)
    ensures |r| == |db|
  {
    seq(|db|, i requires 0 <= i < |db| => NttSlot(s, db[i]))
  }

  /** db_ after set_database. */
  function DatabaseOf(s: Seal, padded: seq<seq<Byte>>, epp: nat, es: nat, bpc: nat, n: nat, dbSize: nat): seq<Slot>
    requires epp >= 1 && Database.Packable(padded, epp, es)
  {
    NttSlots(s, PackedSlots(padded, epp, es, bpc, n, dbSize))
  }

  /** Every stored plaintext is a reduced polynomial of N*K words. */
  predicate SlotsReduced(ctx: Context, db: seq<Slot>)
    requires Valid(ctx)
  {
    forall i :: 0 <= i < |db| && db[i].Some? ==> Reduced(ctx, db[i].value)
  }

  /** The shape of db_: at least DBSize slots, exactly DBSize when the
      entries fill no more plaintexts than that; the slots after the packed
      plaintexts are absent; a packed plaintext is present exactly when
      sum_size is not zero; every present one is reduced. */
  lemma DatabaseShape(ctx: Context, s: Seal, padded: seq<seq<Byte>>, epp: nat, es: nat, bpc: nat, dbSize: nat)
    requires Valid(ctx) && SealValid(ctx, s) && epp >= 1 && Database.Packable(padded, epp, es)
    ensures var db := DatabaseOf(s, padded, epp, es, bpc, ctx.n, dbSize);
      var p := Database.PlaintextCount(|padded|, epp);
      && |db| >= dbSize && |db| >= p
      && (p <= dbSize ==> |db| == dbSize)
      && (forall i :: p <= i < |db| ==> db[i] == None)
      && (forall i :: 0 <= i < p ==> (db[i].Some? <==> epp * es != 0))
      && SlotsReduced(ctx, db)
  {
    var db := DatabaseOf(s, padded, epp, es, bpc, ctx.n, dbSize);
    var packed := PackedSlots(padded, epp, es, bpc, ctx.n, dbSize);
    forall i | 0 <= i < |db| && db[i].Some?
      ensures Reduced(ctx, db[i].value)
    {
      assert db[i] == NttSlot(s, packed[i]);
    }
  }

  /** Slot i below the plaintext count holds plaintext i in the NTT domain
      when sum_size is not zero. */
  lemma SlotHolds(s: Seal, padded: seq<seq<Byte>>, epp: nat, es: nat, bpc: nat, n: nat, dbSize: nat, i: nat)
    requires epp >= 1 && es >= 1 && Database.Packable(padded, epp, es)
    requires i < Database.PlaintextCount(|padded|, epp)
    ensures i < |DatabaseOf(s, padded, epp, es, bpc, n, dbSize)|
    ensures DatabaseOf(s, padded, epp, es, bpc, n, dbSize)[i]
         == Some(s.nttPlain(Database.PlaintextOf(padded, epp, es, bpc, n, i)))
  {
    MulPositive(epp, es);
  }

  /** Entry e is stored, packed, in the slot the client computes for it,
      and reads back as its first es bytes. */
  lemma EntryStored(ctx: Context, s: Seal, padded: seq<seq<Byte>>, epp: nat, es: nat, bpc: nat, dbSize: nat, e: nat)
    requires Valid(ctx) && epp >= 1 && es >= 1 && bpc >= 1 && Database.Packable(padded, epp, es)
    requires epp * es * 8 <= ctx.n * bpc
    requires e < Database.PlaintextCount(|padded|, epp) * epp
    ensures Client.PlainIndex(e, epp) < Database.PlaintextCount(|padded|, epp)
    ensures Client.PlainIndex(e, epp) < |DatabaseOf(s, padded, epp, es, bpc, ctx.n, dbSize)|
    ensures DatabaseOf(s, padded, epp, es, bpc, ctx.n, dbSize)[Client.PlainIndex(e, epp)]
         == Some(s.nttPlain(Database.PlaintextOf(padded, epp, es, bpc, ctx.n, Client.PlainIndex(e, epp))))
    ensures Client.EntryOf(Database.PlaintextOf(padded, epp, es, bpc, ctx.n, Client.PlainIndex(e, epp)),
                           bpc, Rem(e, epp) * es, es) == padded[e][..es]
  {
    Database.EntryRoundTrip(padded, epp, es, bpc, ctx.n, e);
    SlotHolds(s, padded, epp, es, bpc, ctx.n, dbSize, Client.PlainIndex(e, epp));
  }

  // ---------------------------------------------------------------------
  // evaluate_first_dim_delayed_mod

  lemma SlotIndex(d0: nat, other: nat, col: nat, i: nat)
    requires col < other && i < d0
    ensures col + i * other < d0 * other
  {
    MulSuccLeft(i, other);
    MulMono(i + 1, d0, other);
  }

  /** Row i of database column col: the plaintext in slot col + i*other, or
      all zeros where that slot is absent, since an absent slot is skipped. */
  function ColumnRow(ctx: Context, db: seq<Slot>, d0: nat, other: nat, col: nat, i: nat): (row: Poly)
    requires Valid(ctx) && SlotsReduced(ctx, db) && col < other && i < d0 && d0 * other <= |db|
    ensures |row| == Len(ctx)
  {
    SlotIndex(d0, other, col, i);
    match db[col + i * other]
    case Some(pt) => pt
    case None => Zeros(Len(ctx))
  }

  function ColumnRows(ctx: Context, db: seq<Slot>, d0: nat, other: nat, col: nat): (rows: seq<Poly>)
    requires Valid(ctx) && SlotsReduced(ctx, db) && col < other && d0 * other <= |db|
    ensures |rows| == d0 && forall i :: 0 <= i < d0 ==> |rows[i]| == Len(ctx)
  {
    seq(d0, i requires 0 <= i < d0 => ColumnRow(ctx, db, d0, other, col, i))
  }

  /** Polynomial k of the first d0 selection ciphertexts. */
  function SelRows(ctx: Context, sel: seq<Ct>, d0: nat, k: nat): (rows: seq<Poly>)
    requires Valid(ctx) && d0 <= |sel| && k < 2 && forall i :: 0 <= i < d0 ==> IsCt2(ctx, sel[i])
    ensures |rows| == d0 && forall i :: 0 <= i < d0 ==> |rows[i]| == Len(ctx)
  {
    seq(d0, i requires 0 <= i < d0 => PolyOf(ctx, sel[i], k))
  }

  function PolyOf(ctx: Context, ct: Ct, k: nat): (p: Poly)
    requires Valid(ctx) && IsCt2(ctx, ct) && k < 2
    ensures Reduced(ctx, p)
  {
    ct[k]
  }

  /** What the selection has to be for the first dimension. */
  predicate Selection(ctx: Context, sel: seq<Ct>, d0: nat)
    requires Valid(ctx)
  {
    d0 <= |sel| && forall i :: 0 <= i < |sel| ==> IsCt2(ctx, sel[i])
  }

  /** Result ciphertext col: polynomial k is the 128-bit accumulation of
      sel[i][k] * row i of the column, reduced once per word, then
      transformed back from the NTT domain. */
  function FirstDimColumn(ctx: Context, s: Seal, sel: seq<Ct>, db: seq<Slot>, d0: nat, other: nat, col: nat): (ct: Ct)
    requires Valid(ctx) && SealValid(ctx, s) && Selection(ctx, sel, d0)
    requires SlotsReduced(ctx, db) && col < other && d0 * other <= |db|
    ensures IsCt2(ctx, ct)
  {
    var rows := ColumnRows(ctx, db, d0, other, col);
    var acc0 := ReduceOnce(ctx, HalfSums(SelRows(ctx, sel, d0, 0), rows, 0, Len(ctx)));
    var acc1 := ReduceOnce(ctx, HalfSums(SelRows(ctx, sel, d0, 1), rows, 0, Len(ctx)));
    InvNttCt(ctx, s, [acc0, acc1])
  }

  function FirstDimOf(ctx: Context, s: Seal, sel: seq<Ct>, db: seq<Slot>, d0: nat, other: nat): (r: seq<Ct>)
    requires Valid(ctx) && SealValid(ctx, s) && Selection(ctx, sel, d0)
    requires SlotsReduced(ctx, db) && d0 * other <= |db|
    ensures |r| == other && forall col :: 0 <= col < other ==> IsCt2(ctx, r[col])
  {
    seq(other, col requires 0 <= col < other => FirstDimColumn(ctx, s, sel, db, d0, other, col))
  }

  /** The first d0 selection ciphertexts transformed to the NTT domain, in
      place; the others are kept. */
  function NttFirst(ctx: Context, s: Seal, sel: seq<Ct>, d0: nat): (r: seq<Ct>)
    requires Valid(ctx) && SealValid(ctx, s) && Selection(ctx, sel, d0)
    ensures |r| == |sel| && Selection(ctx, r, d0)
    ensures forall i :: d0 <= i < |sel| ==> r[i] == sel[i]
  {
    seq(|sel|, i requires 0 <= i < |sel| => if i < d0 then NttCt(ctx, s, sel[i]) else sel[i])
  }

  /** Before the inverse NTT, word c of polynomial k of column col is the
      sum of sel[i][k][c] * row i of the column at c, reduced once modulo its
      block's modulus. With reduced inputs and d0 * q^2 <= 2^128 the
      128-bit accumulator never wraps, and the result is what reducing
      after every product gives. */
  lemma FirstDimIsModularDot(ctx: Context, sel: seq<Ct>, db: seq<Slot>, d0: nat, other: nat, col: nat,
                             k: nat, c: nat)
    requires Valid(ctx) && Selection(ctx, sel, d0) && SlotsReduced(ctx, db)
    requires col < other && d0 * other <= |db| && k < 2 && c < Len(ctx)
    requires d0 * (ModAt(ctx, c) * ModAt(ctx, c)) <= U128
    ensures var t := Terms(SelRows(ctx, sel, d0, k), ColumnRows(ctx, db, d0, other, col), 0, c);
      && ReduceOnce(ctx, HalfSums(SelRows(ctx, sel, d0, k), ColumnRows(ctx, db, d0, other, col), 0, Len(ctx)))[c]
         == Sum(t) % ModAt(ctx, c)
      && ReduceOnce(ctx, HalfSums(SelRows(ctx, sel, d0, k), ColumnRows(ctx, db, d0, other, col), 0, Len(ctx)))[c]
         == EagerMod(t, ModAt(ctx, c))
  {
    var q := ModAt(ctx, c);
    var dec, rows := SelRows(ctx, sel, d0, k), ColumnRows(ctx, db, d0, other, col);
    var t := Terms(dec, rows, 0, c);
    forall i | 0 <= i < d0
      ensures t[i] < q * q
    {
      SlotIndex(d0, other, col, i);
      assert rows[i][c] < q;
      ProductBelow(dec[i][c], rows[i][c], q);
    }
    Acc128Exact(t, q * q);
    DelayedModIsEager(t, q);
  }

  /** An all-zero row leaves the 128-bit accumulation as it is: skipping an
      absent slot is adding nothing. */
  lemma AbsentRow(dec: seq<Poly>, rows: seq<seq<nat>>, len: nat, j: nat)
    requires |dec| == |rows| && j < |dec|
    requires forall j' :: 0 <= j' < |dec| ==> |dec[j']| == len && len <= |rows[j']|
    requires forall c :: 0 <= c < len ==> rows[j][c] == 0
    ensures AccPrefix(dec, rows, 0, len, j + 1) == AccPrefix(dec, rows, 0, len, j)
  {
    forall c | 0 <= c < len
      ensures AccPrefix(dec, rows, 0, len, j + 1)[c] == AccPrefix(dec, rows, 0, len, j)[c]
    {
      AccStep(dec, rows, 0, c, j);
      var x := Acc128(Terms(dec, rows, 0, c)[..j]);
      assert dec[j][c] * rows[j][0 + c] == 0;
      SmallDivMod(x, U128);
    }
  }

  /** After all rows, the accumulation is the half's sums. */
  lemma PrefixComplete(dec: seq<Poly>, rows: seq<seq<nat>>, len: nat)
    requires |dec| == |rows|
    requires forall j :: 0 <= j < |dec| ==> |dec[j]| == len && len <= |rows[j]|
    ensures AccPrefix(dec, rows, 0, len, |dec|) == HalfSums(dec, rows, 0, len)
  {
    forall c | 0 <= c < len
      ensures AccPrefix(dec, rows, 0, len, |dec|)[c] == HalfSums(dec, rows, 0, len)[c]
    {
      assert Terms(dec, rows, 0, c)[..|dec|] == Terms(dec, rows, 0, c);
    }
  }

  /** Row i of one column: when the slot is present, multiply_poly_acum of
      both selection polynomials with its plaintext into the two 128-bit
      buffers; an absent slot is skipped. */
  method AccumulateRow(selI: Ct, slot: Slot, len: nat, buf0: array<nat>, buf1: array<nat>,
                       ghost dec0: seq<Poly>, ghost dec1: seq<Poly>, ghost rows: seq<seq<nat>>, ghost i: nat)
    requires buf0 != buf1 && |dec0| == |rows| && |dec1| == |rows| && i < |rows|
    requires forall j :: 0 <= j < |rows| ==> |dec0[j]| == len && |dec1[j]| == len && len <= |rows[j]|
    requires |selI| == 2 && selI[0] == dec0[i] && selI[1] == dec1[i]
    requires slot.Some? ==> rows[i] == slot.value && |slot.value| == len
    requires slot.None? ==> forall c :: 0 <= c < len ==> rows[i][c] == 0
    requires buf0[..] == AccPrefix(dec0, rows, 0, len, i) && buf1[..] == AccPrefix(dec1, rows, 0, len, i)
    modifies buf0, buf1
    ensures buf0[..] == AccPrefix(dec0, rows, 0, len, i + 1) && buf1[..] == AccPrefix(dec1, rows, 0, len, i + 1)
  {
    if slot.Some? {
      assert rows[i][0..len] == slot.value;
      MultiplyPolyAcum(selI[0], slot.value, len, buf0, 0);
      AccPrefixStep(dec0, rows, 0, len, i);
      MultiplyPolyAcum(selI[1], slot.value, len, buf1, 0);
      AccPrefixStep(dec1, rows, 0, len, i);
    } else {
      AbsentRow(dec0, rows, len, i);
      AbsentRow(dec1, rows, len, i);
    }
  }

  /** One column of evaluate_first_dim_delayed_mod: every row accumulated
      into two zeroed 128-bit buffers; then every word reduced once (into a
      copy of selection ciphertext 0, all of whose words are overwritten)
      and the inverse NTT. */
  method AccumulateColumn(ctx: Context, s: Seal, sel: seq<Ct>, db: seq<Slot>, d0: nat, other: nat, col: nat)
      returns (ct: Ct)
    requires Valid(ctx) && SealValid(ctx, s) && Selection(ctx, sel, d0)
    requires SlotsReduced(ctx, db) && col < other && d0 * other <= |db|
    ensures ct == FirstDimColumn(ctx, s, sel, db, d0, other, col)
  {
    var len := Len(ctx);
    ghost var rows := ColumnRows(ctx, db, d0, other, col);
    ghost var sel0, sel1 := SelRows(ctx, sel, d0, 0), SelRows(ctx, sel, d0, 1);
    var buf0 := new nat[len](_ => 0);
    var buf1 := new nat[len](_ => 0);
    assert buf0[..] == AccPrefix(sel0, rows, 0, len, 0);
    assert buf1[..] == AccPrefix(sel1, rows, 0, len, 0);
    var i := 0;
    while i < d0
      invariant 0 <= i <= d0
      invariant buf0[..] == AccPrefix(sel0, rows, 0, len, i)
      invariant buf1[..] == AccPrefix(sel1, rows, 0, len, i)
    {
      SlotIndex(d0, other, col, i);
      assert rows[i] == ColumnRow(ctx, db, d0, other, col, i);
      AccumulateRow(sel[i], db[col + i * other], len, buf0, buf1, sel0, sel1, rows, i);
      i := i + 1;
    }
    PrefixComplete(sel0, rows, len);
    PrefixComplete(sel1, rows, len);
    var acc0 := ReduceHalf(ctx, buf0[..]);
    var acc1 := ReduceHalf(ctx, buf1[..]);
    ct := [s.invNtt(acc0), s.invNtt(acc1)];
  }

  // ---------------------------------------------------------------------
  // evaluate_gsw_product

  /** Item i of evaluate_gsw_product for the halves x = result[i] and
      y = result[i + block]: the external product of the selection GSW with
      x - y, transformed back, plus y. */
  function GswSelect(ctx: Context, s: Seal, e: Eval, gsw: seq<seq<nat>>, x: Ct, y: Ct): (r: Ct)
    requires Valid(ctx) && SealValid(ctx, s) && IsGsw(ctx, e, gsw) && IsCt2(ctx, x) && IsCt2(ctx, y)
    ensures IsCt2(ctx, r)
  {
    AddCt(ctx, InvNttCt(ctx, s, ExternalProductOf(ctx, s, e, gsw, SubCt(ctx, x, y))), y)
  }

  /** Two ciphertexts of zeros, what an external product with GSW(0) gives
      when noise is left out. */
  function ZeroCt(ctx: Context): (z: Ct)
    requires Valid(ctx)
    ensures IsCt2(ctx, z)
  {
    [Zeros(Len(ctx)), Zeros(Len(ctx))]
  }

  /** The selection GSW acts on the pair (x, y) as the bit b: the external
      product passes x - y through for b, and gives zero for !b. */
  predicate Selects(ctx: Context, s: Seal, e: Eval, gsw: seq<seq<nat>>, x: Ct, y: Ct, b: bool)
    requires Valid(ctx) && SealValid(ctx, s) && IsGsw(ctx, e, gsw) && IsCt2(ctx, x) && IsCt2(ctx, y)
  {
    InvNttCt(ctx, s, ExternalProductOf(ctx, s, e, gsw, SubCt(ctx, x, y))) == if b then SubCt(ctx, x, y) else ZeroCt(ctx)
  }

  /** The multiplexer identity of evaluate_gsw_product: b * (x - y) + y is
      x for the bit 1 and y for the bit 0. */
  lemma GswSelects(ctx: Context, s: Seal, e: Eval, gsw: seq<seq<nat>>, x: Ct, y: Ct, b: bool)
    requires Valid(ctx) && SealValid(ctx, s) && IsGsw(ctx, e, gsw) && IsCt2(ctx, x) && IsCt2(ctx, y)
    requires Selects(ctx, s, e, gsw, x, y, b)
    ensures GswSelect(ctx, s, e, gsw, x, y) == if b then x else y
  {
    var r := GswSelect(ctx, s, e, gsw, x, y);
    if b {
      SubAddCancel(ctx, x[0], y[0]);
      SubAddCancel(ctx, x[1], y[1]);
      assert r == x;
    } else {
      ZeroAdd(ctx, Zeros(Len(ctx)), y[0]);
      ZeroAdd(ctx, Zeros(Len(ctx)), y[1]);
      assert r == y;
    }
  }

  /** The vector evaluate_gsw_product returns: one item per pair of halves. */
  function GswProductOf(ctx: Context, s: Seal, e: Eval, gsw: seq<seq<nat>>, cts: seq<Ct>): (r: seq<Ct>)
    requires Valid(ctx) && SealValid(ctx, s) && IsGsw(ctx, e, gsw)
    requires forall i :: 0 <= i < |cts| ==> IsCt2(ctx, cts[i])
    ensures |r| == |cts| / 2 && forall i :: 0 <= i < |r| ==> IsCt2(ctx, r[i])
  {
    var h := |cts| / 2;
    seq(h, i requires 0 <= i < h => GswSelect(ctx, s, e, gsw, cts[i], cts[i + h]))
  }

  /** The selection GSW acts as the bit b on every pair. */
  ghost predicate Selector(ctx: Context, s: Seal, e: Eval, gsw: seq<seq<nat>>, b: bool)
    requires Valid(ctx) && SealValid(ctx, s) && IsGsw(ctx, e, gsw)
  {
    forall x, y {:trigger Selects(ctx, s, e, gsw, x, y, b)} :: IsCt2(ctx, x) && IsCt2(ctx, y) ==> Selects(ctx, s, e, gsw, x, y, b)
  }

  /** Every GSW of gs selects by its bit of bits. */
  ghost predicate Selectors(ctx: Context, s: Seal, e: Eval, gs: seq<seq<seq<nat>>>, bits: seq<bool>)
    requires Valid(ctx) && SealValid(ctx, s) && forall d :: 0 <= d < |gs| ==> IsGsw(ctx, e, gs[d])
  {
    |bits| == |gs| && forall d :: 0 <= d < |gs| ==> Selector(ctx, s, e, gs[d], bits[d])
  }

  /** A selector for the bit b keeps the first half of the vector for 1
      and the second half for 0. */
  lemma GswProductSelectsHalf(ctx: Context, s: Seal, e: Eval, gsw: seq<seq<nat>>, cts: seq<Ct>, b: bool)
    requires Valid(ctx) && SealValid(ctx, s) && IsGsw(ctx, e, gsw)
    requires forall i :: 0 <= i < |cts| ==> IsCt2(ctx, cts[i])
    requires Selector(ctx, s, e, gsw, b)
    ensures var h := |cts| / 2;
      GswProductOf(ctx, s, e, gsw, cts) == if b then cts[..h] else cts[h..2 * h]
  {
    var h := |cts| / 2;
    var r := GswProductOf(ctx, s, e, gsw, cts);
    var want := if b then cts[..h] else cts[h..2 * h];
    forall i | 0 <= i < h
      ensures r[i] == want[i]
    {
      var x, y := cts[i], cts[i + h];
      GswProductAt(ctx, s, e, gsw, cts, i);
      GswSelects(ctx, s, e, gsw, x, y, b);
    }
    assert |r| == |want|;
  }

  /** Entry i of the product vector selects between cts[i] and cts[i + h]. */
  lemma GswProductAt(ctx: Context, s: Seal, e: Eval, gsw: seq<seq<nat>>, cts: seq<Ct>, i: nat)
    requires Valid(ctx) && SealValid(ctx, s) && IsGsw(ctx, e, gsw)
    requires forall j :: 0 <= j < |cts| ==> IsCt2(ctx, cts[j])
    requires i < |cts| / 2
    ensures IsCt2(ctx, cts[i]) && IsCt2(ctx, cts[i + |cts| / 2])
    ensures GswProductOf(ctx, s, e, gsw, cts)[i] == GswSelect(ctx, s, e, gsw, cts[i], cts[i + |cts| / 2])
  {
  }

  /** The external product evaluate_gsw_product computes for pair i of
      cts: the selection GSW times cts[i] - cts[i + |cts| / 2]. */
  function PairProduct(ctx: Context, s: Seal, e: Eval, gsw: seq<seq<nat>>, cts: seq<Ct>, i: nat): (r: Ct)
    requires Valid(ctx) && SealValid(ctx, s) && IsGsw(ctx, e, gsw)
    requires forall j :: 0 <= j < |cts| ==> IsCt2(ctx, cts[j])
    requires i < |cts| / 2
    ensures IsCt2(ctx, r)
  {
    var x, y := cts[i], cts[i + |cts| / 2];
    assert IsCt2(ctx, x) && IsCt2(ctx, y);
    ExternalProductOf(ctx, s, e, gsw, SubCt(ctx, x, y))
  }

  /** The GSW selection ciphertext of query_to_gsw for the expanded query
      ciphertexts lwe: their NTT rows, then their external products with
      the client's GSW key. */
  function QueryGswOf(ctx: Context, s: Seal, e: Eval, lwe: seq<Ct>, gswKey: seq<seq<nat>>): (gsw: seq<seq<nat>>)
    requires Valid(ctx) && SealValid(ctx, s) && IsGsw(ctx, e, gswKey)
    requires forall i :: 0 <= i < |lwe| ==> IsCt2(ctx, lwe[i])
    ensures |gsw| == 2 * |lwe| && forall j :: 0 <= j < |gsw| ==> |gsw[j]| == 2 * Len(ctx)
  {
    seq(|lwe|, i requires 0 <= i < |lwe| => NttRow(ctx, s, lwe[i]))
      + seq(|lwe|, i requires 0 <= i < |lwe| => ProductRow(ctx, s, e, gswKey, lwe[i]))
  }

  /** What query_to_gsw promises row by row is the whole GSW of QueryGswOf. */
  lemma QueryGswIs(ctx: Context, s: Seal, e: Eval, lwe: seq<Ct>, gswKey: seq<seq<nat>>, out: seq<seq<nat>>)
    requires Valid(ctx) && SealValid(ctx, s) && IsGsw(ctx, e, gswKey)
    requires forall i :: 0 <= i < |lwe| ==> IsCt2(ctx, lwe[i])
    requires |out| == 2 * |lwe|
    requires forall i :: 0 <= i < |lwe| ==> out[i] == NttRow(ctx, s, lwe[i])
    requires forall i :: 0 <= i < |lwe| ==> out[|lwe| + i] == ProductRow(ctx, s, e, gswKey, lwe[i])
    ensures out == QueryGswOf(ctx, s, e, lwe, gswKey)
  {
    var want := QueryGswOf(ctx, s, e, lwe, gswKey);
    forall j | 0 <= j < |out|
      ensures out[j] == want[j]
    {
      if j >= |lwe| {
        assert out[|lwe| + (j - |lwe|)] == ProductRow(ctx, s, e, gswKey, lwe[j - |lwe|]);
      }
    }
  }

  // ---------------------------------------------------------------------
  // expand_query

  /** shift_polynomial by -c, a size_t argument that becomes 2^64 - c, with
      the parameters' moduli (the context's and the special prime): the K
      blocks of both polynomials multiplied by x^(-c). */
  function ShiftBack(ctx: Context, special: nat, ct: Ct, c: nat): (r: Ct)
    requires Valid(ctx) && IsCt2(ctx, ct)
    ensures IsCt2(ctx, r)
  {
    var moduli := ctx.moduli + [special];
    ShiftedPolyReduced(ctx, ct[0], special, Wrap64(-(c as int)));
    ShiftedPolyReduced(ctx, ct[1], special, Wrap64(-(c as int)));
    [ShiftedPoly(ct[0], moduli, K(ctx), ctx.n, Wrap64(-(c as int))), ShiftedPoly(ct[1], moduli, K(ctx), ctx.n, Wrap64(-(c as int)))]
  }

  /** The Galois element of a round with c = 2^a: N / c + 1. */
  function RoundElement(n: nat, c: nat): nat
    requires c >= 1
  {
    Quot(n, c) + 1
  }

  /** Slot b after the round with c = 2^a of expand_query: with g the
      Galois image of slot b (b < c), slot b becomes v[b] + g and slot
      b + c becomes shift(v[b], -c) - shift(g, -c); slots from 2c on stay. */
  function ExpandedSlot(ctx: Context, s: Seal, special: nat, v: seq<Ct>, c: nat, b: nat): (ct: Ct)
    requires Valid(ctx) && SealValid(ctx, s) && c >= 1 && 2 * c <= |v| && b < |v|
    requires forall j :: 0 <= j < c ==> IsCt2(ctx, v[j])
    ensures b < 2 * c ==> IsCt2(ctx, ct)
  {
    if b < c then
      AddCt(ctx, v[b], s.galois(v[b], RoundElement(ctx.n, c)))
    else if b < 2 * c then
      var g := s.galois(v[b - c], RoundElement(ctx.n, c));
      SubCt(ctx, ShiftBack(ctx, special, v[b - c], c), ShiftBack(ctx, special, g, c))
    else v[b]
  }

  function ExpandRound(ctx: Context, s: Seal, special: nat, v: seq<Ct>, c: nat): (r: seq<Ct>)
    requires Valid(ctx) && SealValid(ctx, s) && c >= 1 && 2 * c <= |v|
    requires forall j :: 0 <= j < c ==> IsCt2(ctx, v[j])
    ensures |r| == |v| && forall b :: 0 <= b < 2 * c ==> IsCt2(ctx, r[b])
    ensures forall b :: 2 * c <= b < |v| ==> r[b] == v[b]
  {
    seq(|v|, b requires 0 <= b < |v| => ExpandedSlot(ctx, s, special, v, c, b))
  }

  /** cipher_vec after the first a of e rounds: 2^e slots, the query in
      slot 0 and default (empty) ciphertexts in the others at the start;
      round a' doubles the slots in use from 2^a' to 2^(a'+1). */
  function ExpandedAfter(ctx: Context, s: Seal, special: nat, ct: Ct, e: nat, a: nat): (v: seq<Ct>)
    requires Valid(ctx) && SealValid(ctx, s) && IsCt2(ctx, ct) && a <= e
    ensures |v| == Pow2(e)
    ensures forall b :: 0 <= b < |v| ==> if b < Pow2(a) then IsCt2(ctx, v[b]) else v[b] == []
    decreases a
  {
    if a == 0 then [ct] + seq(Pow2(e) - 1, _ => [])
    else
      var prev := ExpandedAfter(ctx, s, special, ct, e, a - 1);
      Pow2Mono(a, e);
      ExpandRound(ctx, s, special, prev, Pow2(a - 1))
  }

  /** Round a of e takes the slots after a rounds to those after a + 1. */
  lemma ExpandedStep(ctx: Context, s: Seal, special: nat, ct: Ct, e: nat, a: nat)
    requires Valid(ctx) && SealValid(ctx, s) && IsCt2(ctx, ct) && a < e
    ensures Pow2(a) >= 1 && 2 * Pow2(a) <= Pow2(e)
    ensures forall j :: 0 <= j < Pow2(a) ==> IsCt2(ctx, ExpandedAfter(ctx, s, special, ct, e, a)[j])
    ensures ExpandedAfter(ctx, s, special, ct, e, a + 1)
         == ExpandRound(ctx, s, special, ExpandedAfter(ctx, s, special, ct, e, a), Pow2(a))
  {
    Pow2Mono(a + 1, e);
  }

  /** The body of a round for one b: the Galois image cipher0 of slot b,
      cipher1 its shift by -c, slot b + c the shift of slot b; then slot b
      plus cipher0 and slot b + c minus cipher1. */
  method ExpandPair(ctx: Context, s: Seal, special: nat, x: Ct, c: nat) returns (low: Ct, high: Ct)
    requires Valid(ctx) && SealValid(ctx, s) && c >= 1 && IsCt2(ctx, x)
    ensures low == AddCt(ctx, x, s.galois(x, RoundElement(ctx.n, c)))
    ensures high == SubCt(ctx, ShiftBack(ctx, special, x, c),
                          ShiftBack(ctx, special, s.galois(x, RoundElement(ctx.n, c)), c))
  {
    var coeffModulus := ctx.moduli + [special];
    var cipher0 := s.galois(x, RoundElement(ctx.n, c));
    var cipher1 := ShiftPolynomial(ctx.n, coeffModulus, cipher0, Wrap64(-(c as int)));
    var shifted := ShiftPolynomial(ctx.n, coeffModulus, x, Wrap64(-(c as int)));
    assert cipher1 == ShiftBack(ctx, special, cipher0, c);
    assert shifted == ShiftBack(ctx, special, x, c);
    low := AddCt(ctx, x, cipher0);
    high := SubCt(ctx, shifted, cipher1);
  }

  /** Slots b and b + c after a round, b < c. */
  lemma ExpandRoundAt(ctx: Context, s: Seal, special: nat, v: seq<Ct>, c: nat, b: nat)
    requires Valid(ctx) && SealValid(ctx, s) && c >= 1 && 2 * c <= |v|
    requires forall j :: 0 <= j < c ==> IsCt2(ctx, v[j])
    requires b < c
    ensures IsCt2(ctx, v[b])
    ensures ExpandRound(ctx, s, special, v, c)[b] == AddCt(ctx, v[b], s.galois(v[b], RoundElement(ctx.n, c)))
    ensures ExpandRound(ctx, s, special, v, c)[b + c]
         == SubCt(ctx, ShiftBack(ctx, special, v[b], c), ShiftBack(ctx, special, s.galois(v[b], RoundElement(ctx.n, c)), c))
  {
  }

  /** One round of expand_query, c = 2^a, slot by slot. */
  method ExpandRoundInPlace(ctx: Context, s: Seal, special: nat, v: seq<Ct>, c: nat) returns (r: seq<Ct>)
    requires Valid(ctx) && SealValid(ctx, s) && c >= 1 && 2 * c <= |v|
    requires forall j :: 0 <= j < c ==> IsCt2(ctx, v[j])
    ensures r == ExpandRound(ctx, s, special, v, c)
  {
    ghost var next := ExpandRound(ctx, s, special, v, c);
    r := v;
    var b := 0;
    while b < c
      invariant 0 <= b <= c && |r| == |v|
      invariant forall j :: 0 <= j < |v| ==> r[j] == if j < b || c <= j < c + b then next[j] else v[j]
    {
      ExpandRoundAt(ctx, s, special, v, c, b);
      var low, high := ExpandPair(ctx, s, special, r[b], c);
      r := r[b := low][b + c := high];
      b := b + 1;
    }
    assert r == next;
  }

  /** expansion_factor: the least e with 2^e >= msg_size. */
  function Expansion(p: PirParams.Params): nat
    requires |p.dims| >= 1
  {
    CeilLog2(Client.MsgSize(p.dims, p.dataGsw.l))
  }

  /** Every Galois element a round of expand_query applies, N / 2^a + 1 for
      a < expansion_factor, is one create_galois_keys made a key for, when
      2^compression_factor <= N as the client requires. */
  lemma RoundKeysGenerated(n: nat, dims: seq<nat>, l: nat, a: nat)
    requires IsPow2(n) && |dims| >= 1 && dims[0] >= 1
    requires Pow2(Client.CompressionFactor(dims, l)) <= n
    requires a < CeilLog2(Client.MsgSize(dims, l))
    ensures FloorLog2(n) >= Client.CompressionFactor(dims, l)
    ensures RoundElement(n, Pow2(a)) in Client.GaloisTail(FloorLog2(n), Client.CompressionFactor(dims, l))
  {
    var m := Client.MsgSize(dims, l);
    MsgSizeSplit(dims, l);
    RoundKeysAt(n, m, m + (m - dims[0]), Client.CompressionFactor(dims, l), a);
  }

  /** The compression factor is floor(log2(msg_size + l * (ndim - 1))). */
  lemma MsgSizeSplit(dims: seq<nat>, l: nat)
    requires |dims| >= 1 && dims[0] >= 1
    ensures Client.CompressionFactor(dims, l)
         == FloorLog2(Client.MsgSize(dims, l) + (Client.MsgSize(dims, l) - dims[0]))
  {
    var w := l * (|dims| - 1);
    assert w * 2 == w + w;
  }

  /** The same for msg_size m and compression factor floor(log2(x)), where
      m <= x. */
  lemma RoundKeysAt(n: nat, m: nat, x: nat, cf: nat, a: nat)
    requires IsPow2(n) && 1 <= m <= x && cf == FloorLog2(x)
    requires Pow2(cf) <= n
    requires a < CeilLog2(m)
    ensures FloorLog2(n) >= cf
    ensures RoundElement(n, Pow2(a)) in Client.GaloisTail(FloorLog2(n), cf)
  {
    RoundBelowCompression(a, m, x, cf);
    var logN := FloorLog2(n);
    IsPow2Exp(n);
    Pow2MonoInv(cf, logN);
    Pow2Div(logN, a);
    QuotRemIsDivMod(n, Pow2(a));
    ElementInTail(logN, cf, a, RoundElement(n, Pow2(a)));
  }

  /** a < ceil(log2(m)) and m <= x give a <= floor(log2(x)): 2^a <=
      2^(e-1) < m <= x < 2^(cf+1). */
  lemma RoundBelowCompression(a: nat, m: nat, x: nat, cf: nat)
    requires 1 <= m <= x && a < CeilLog2(m) && cf == FloorLog2(x)
    ensures a <= cf
  {
    var e := CeilLog2(m);
    assert Pow2(e - 1) < m;
    Pow2Mono(a, e - 1);
    Pow2LessInv(a, cf + 1);
  }

  /** 2^(logN-a) + 1 is element cf - a of the tail after the leading 1. */
  lemma ElementInTail(logN: nat, cf: nat, a: nat, elt: nat)
    requires a <= cf <= logN && elt == Pow2(logN - a) + 1
    ensures elt in Client.GaloisTail(logN, cf)
  {
    var t := Client.GaloisTail(logN, cf);
    assert logN - cf + (cf - a) == logN - a;
    assert t[cf - a] == Client.GaloisElt(logN, cf, cf - a);
  }

  // ---------------------------------------------------------------------
  // make_query

  /** The digit bounds external_product and query_to_gsw need: a digit
      narrower than the 128-bit accumulator, l digits within the K words of
      a composed value. */
  predicate DigitsFit(ctx: Context, e: Eval)
  {
    e.baseLog2 < 128 && (e.l == 0 || (e.l - 1) * e.baseLog2 < 64 * K(ctx))
  }

  /** What make_query relies on: the PirParams invariants on dims_ (a
      positive first dimension, then dimensions of size 2, multiplying to
      DBSize), at least one GSW level, digits that fit, the client's GSW key
      of 2 l_key rows, and a database of at least DBSize reduced slots. */
  predicate Serving(ctx: Context, p: PirParams.Params, db: seq<Slot>, gswKey: seq<seq<nat>>)
  {
    && Valid(ctx)
    && |p.dims| >= 1 && p.dims[0] >= 1
    && (forall i :: 1 <= i < |p.dims| ==> p.dims[i] == 2)
    && Product(p.dims) == p.dbSize
    && p.dataGsw.l >= 1
    && DigitsFit(ctx, p.dataGsw) && DigitsFit(ctx, p.keyGsw)
    && IsGsw(ctx, p.keyGsw, gswKey)
    && |db| >= p.dbSize && SlotsReduced(ctx, db)
  }

  /** size_of_other_dims = DBSize / dims[0] is 2^(ndim-1). */
  lemma OtherDims(dims: seq<nat>, dbSize: nat)
    requires |dims| >= 1 && dims[0] >= 1 && (forall i :: 1 <= i < |dims| ==> dims[i] == 2)
    requires Product(dims) == dbSize
    ensures Quot(dbSize, dims[0]) == Pow2(|dims| - 1)
    ensures dims[0] * Pow2(|dims| - 1) == dbSize
  {
    assert dims[1..] == PirParams.Twos(|dims| - 1);
    PirParams.TwosProduct(|dims| - 1);
    QuotRemUnique(dbSize, dims[0], Pow2(|dims| - 1), 0);
  }

  /** The l slots of dimension i lie within the msg_size slots. */
  lemma SlotFits(d0: nat, l: nat, ndim: nat, i: nat)
    requires 1 <= i < ndim
    ensures Client.SlotStart(d0, l, i) + l <= d0 + l * (ndim - 1)
  {
    Client.SlotStartSucc(d0, l, i);
    Client.SlotStartMono(d0, l, i + 1, ndim);
  }

  /** The GSW selection ciphertext of dimension i >= 1: query_to_gsw of the
      l expanded slots from dims[0] + l(i-1). */
  function DimensionGsw(ctx: Context, s: Seal, p: PirParams.Params, gswKey: seq<seq<nat>>, sel: seq<Ct>, i: nat)
      : (gsw: seq<seq<nat>>)
    requires Valid(ctx) && SealValid(ctx, s) && IsGsw(ctx, p.keyGsw, gswKey)
    requires 1 <= i < |p.dims| && Client.MsgSize(p.dims, p.dataGsw.l) <= |sel|
    requires forall j :: 0 <= j < |sel| ==> IsCt2(ctx, sel[j])
    ensures IsGsw(ctx, p.dataGsw, gsw)
  {
    var l := p.dataGsw.l;
    var start := Client.SlotStart(p.dims[0], l, i);
    SlotFits(p.dims[0], l, |p.dims|, i);
    QueryGswOf(ctx, s, p.keyGsw, sel[start..start + l], gswKey)
  }

  /** The GSW of the l slots from ptr is that of dimension i. */
  lemma DimensionGswIs(ctx: Context, s: Seal, p: PirParams.Params, gswKey: seq<seq<nat>>, sel: seq<Ct>, i: nat,
                       lwe: seq<Ct>)
    requires Valid(ctx) && SealValid(ctx, s) && IsGsw(ctx, p.keyGsw, gswKey)
    requires 1 <= i < |p.dims| && Client.MsgSize(p.dims, p.dataGsw.l) <= |sel|
    requires forall j :: 0 <= j < |sel| ==> IsCt2(ctx, sel[j])
    requires var start := Client.SlotStart(p.dims[0], p.dataGsw.l, i);
      start + p.dataGsw.l <= |sel| && lwe == sel[start..start + p.dataGsw.l]
    ensures forall j :: 0 <= j < |lwe| ==> IsCt2(ctx, lwe[j])
    ensures DimensionGsw(ctx, s, p, gswKey, sel, i) == QueryGswOf(ctx, s, p.keyGsw, lwe, gswKey)
  {
  }

  /** The selection GSWs of dimensions 1 .. ndim-1, in order. */
  function DimensionGsws(ctx: Context, s: Seal, p: PirParams.Params, gswKey: seq<seq<nat>>, sel: seq<Ct>)
      : (gs: seq<seq<seq<nat>>>)
    requires Valid(ctx) && SealValid(ctx, s) && IsGsw(ctx, p.keyGsw, gswKey)
    requires |p.dims| >= 1 && Client.MsgSize(p.dims, p.dataGsw.l) <= |sel|
    requires forall j :: 0 <= j < |sel| ==> IsCt2(ctx, sel[j])
    ensures |gs| == |p.dims| - 1 && forall d :: 0 <= d < |gs| ==> IsGsw(ctx, p.dataGsw, gs[d])
  {
    seq(|p.dims| - 1, d requires 0 <= d < |p.dims| - 1 => DimensionGsw(ctx, s, p, gswKey, sel, d + 1))
  }

  lemma DimensionGswsAt(ctx: Context, s: Seal, p: PirParams.Params, gswKey: seq<seq<nat>>, sel: seq<Ct>, d: nat)
    requires Valid(ctx) && SealValid(ctx, s) && IsGsw(ctx, p.keyGsw, gswKey)
    requires |p.dims| >= 1 && Client.MsgSize(p.dims, p.dataGsw.l) <= |sel|
    requires forall j :: 0 <= j < |sel| ==> IsCt2(ctx, sel[j])
    requires d < |p.dims| - 1
    ensures DimensionGsws(ctx, s, p, gswKey, sel)[d] == DimensionGsw(ctx, s, p, gswKey, sel, d + 1)
  {
  }

  /** The result vector after the first i of the selection GSWs gs: each
      halves it by evaluate_gsw_product. */
  function Folded(ctx: Context, s: Seal, e: Eval, gs: seq<seq<seq<nat>>>, first: seq<Ct>, i: nat): (r: seq<Ct>)
    requires Valid(ctx) && SealValid(ctx, s) && i <= |gs|
    requires forall d :: 0 <= d < |gs| ==> IsGsw(ctx, e, gs[d])
    requires |first| == Pow2(|gs|) && forall j :: 0 <= j < |first| ==> IsCt2(ctx, first[j])
    ensures |r| == Pow2(|gs| - i) && forall j :: 0 <= j < |r| ==> IsCt2(ctx, r[j])
    decreases i
  {
    if i == 0 then first
    else GswProductOf(ctx, s, e, gs[i - 1], Folded(ctx, s, e, gs, first, i - 1))
  }

  /** The first-dimension selection: the expanded query with its first
      dims[0] ciphertexts in the NTT domain. */
  function SelectionOf(ctx: Context, s: Seal, special: nat, p: PirParams.Params, query: Ct): (sel: seq<Ct>)
    requires Valid(ctx) && SealValid(ctx, s) && |p.dims| >= 1 && IsCt2(ctx, query)
    ensures |sel| == Pow2(Expansion(p)) && Client.MsgSize(p.dims, p.dataGsw.l) <= |sel|
    ensures Selection(ctx, sel, p.dims[0])
  {
    var e := Expansion(p);
    NttFirst(ctx, s, ExpandedAfter(ctx, s, special, query, e, e), p.dims[0])
  }

  /** The results of the first dimension for the query: one per column of
      DBSize / dims[0] = 2^(ndim-1). */
  function FirstDimResults(ctx: Context, s: Seal, special: nat, p: PirParams.Params, db: seq<Slot>,
                           gswKey: seq<seq<nat>>, query: Ct): (first: seq<Ct>)
    requires Serving(ctx, p, db, gswKey) && SealValid(ctx, s) && IsCt2(ctx, query)
    ensures |first| == Pow2(|p.dims| - 1) && forall j :: 0 <= j < |first| ==> IsCt2(ctx, first[j])
  {
    OtherDims(p.dims, p.dbSize);
    FirstDimOf(ctx, s, SelectionOf(ctx, s, special, p, query), db, p.dims[0], Quot(p.dbSize, p.dims[0]))
  }

  /** The selection GSWs make_query builds for the query. */
  function QueryGsws(ctx: Context, s: Seal, special: nat, p: PirParams.Params, db: seq<Slot>,
                     gswKey: seq<seq<nat>>, query: Ct): (gs: seq<seq<seq<nat>>>)
    requires Serving(ctx, p, db, gswKey) && SealValid(ctx, s) && IsCt2(ctx, query)
    ensures |gs| == |p.dims| - 1 && forall d :: 0 <= d < |gs| ==> IsGsw(ctx, p.dataGsw, gs[d])
  {
    DimensionGsws(ctx, s, p, gswKey, SelectionOf(ctx, s, special, p, query))
  }

  /** The reply of make_query: the one ciphertext left after the first
      dimension and every later one, switched to the next modulus level. */
  function ReplyOf(ctx: Context, s: Seal, special: nat, p: PirParams.Params, db: seq<Slot>, gswKey: seq<seq<nat>>,
                   query: Ct): (r: seq<Ct>)
    requires Serving(ctx, p, db, gswKey) && SealValid(ctx, s) && IsCt2(ctx, query)
    ensures |r| == 1
  {
    var first := FirstDimResults(ctx, s, special, p, db, gswKey, query);
    var last := Folded(ctx, s, p.dataGsw, QueryGsws(ctx, s, special, p, db, gswKey, query), first, |p.dims| - 1);
    [s.modSwitch(last[0])]
  }

  /** The index among the first-dimension results that the first i
      selection GSWs keep when GSW d selects with bit bits[d]: a 0 bit moves
      to the second half, 2^(k-1-d) further on, for k GSWs. */
  function Offset(bits: seq<bool>, i: nat): (o: nat)
    requires i <= |bits|
  {
    if i == 0 then 0
    else Offset(bits, i - 1) + (if bits[i - 1] then 0 else Pow2(|bits| - i))
  }

  /** r is the run of |r| entries of first that starts at o. */
  predicate RunAt(r: seq<Ct>, first: seq<Ct>, o: nat)
  {
    o + |r| <= |first| && r == first[o..o + |r|]
  }

  /** Where selection GSW d acts as the bit bits[d] (the noise-free
      contract of external_product), the vector after the first i of them
      is the run of first-dimension results from Offset(bits, i). */
  lemma {:induction false} FoldSelects(ctx: Context, s: Seal, e: Eval, gs: seq<seq<seq<nat>>>, first: seq<Ct>,
                                       bits: seq<bool>, i: nat)
    requires Valid(ctx) && SealValid(ctx, s) && i <= |gs|
    requires forall d :: 0 <= d < |gs| ==> IsGsw(ctx, e, gs[d])
    requires |first| == Pow2(|gs|) && forall j :: 0 <= j < |first| ==> IsCt2(ctx, first[j])
    requires Selectors(ctx, s, e, gs, bits)
    ensures RunAt(Folded(ctx, s, e, gs, first, i), first, Offset(bits, i))
  {
    if i == 0 {
      assert first[0..|first|] == first;
    } else {
      FoldSelects(ctx, s, e, gs, first, bits, i - 1);
      FoldOne(ctx, s, e, gs, first, bits, i);
    }
  }

  /** The inductive step of FoldSelects: from the run after i - 1 GSWs to
      the run after i. */
  lemma FoldOne(ctx: Context, s: Seal, e: Eval, gs: seq<seq<seq<nat>>>, first: seq<Ct>, bits: seq<bool>, i: nat)
    requires Valid(ctx) && SealValid(ctx, s) && 1 <= i <= |gs|
    requires forall d :: 0 <= d < |gs| ==> IsGsw(ctx, e, gs[d])
    requires |first| == Pow2(|gs|) && forall j :: 0 <= j < |first| ==> IsCt2(ctx, first[j])
    requires Selectors(ctx, s, e, gs, bits)
    requires RunAt(Folded(ctx, s, e, gs, first, i - 1), first, Offset(bits, i - 1))
    ensures RunAt(Folded(ctx, s, e, gs, first, i), first, Offset(bits, i))
  {
    var k := |gs|;
    var o := Offset(bits, i - 1);
    var h := Pow2(k - i);
    assert Pow2(k - (i - 1)) == 2 * h;
    var prev := Folded(ctx, s, e, gs, first, i - 1);
    assert |prev| == 2 * h;
    assert IsGsw(ctx, e, gs[i - 1]);
    assert Selector(ctx, s, e, gs[i - 1], bits[i - 1]);
    var o' := Offset(bits, i);
    assert o' == o + (if bits[i - 1] then 0 else h);
    FoldStep(ctx, s, e, gs[i - 1], prev, first, o, h, bits[i - 1], o');
    assert Folded(ctx, s, e, gs, first, i) == GswProductOf(ctx, s, e, gs[i - 1], prev);
  }

  /** One GSW of FoldSelects: a selector for b on the run of 2h results
      from o keeps the h from o' = o for 1 and from o' = o + h for 0. */
  lemma FoldStep(ctx: Context, s: Seal, e: Eval, gsw: seq<seq<nat>>, prev: seq<Ct>, first: seq<Ct>,
                 o: nat, h: nat, b: bool, o': nat)
    requires Valid(ctx) && SealValid(ctx, s) && IsGsw(ctx, e, gsw) && Selector(ctx, s, e, gsw, b)
    requires o + 2 * h <= |first| && prev == first[o..o + 2 * h]
    requires forall j :: 0 <= j < |prev| ==> IsCt2(ctx, prev[j])
    requires o' == o + (if b then 0 else h)
    ensures o' + h <= |first| && GswProductOf(ctx, s, e, gsw, prev) == first[o'..o' + h]
  {
    GswProductSelectsHalf(ctx, s, e, gsw, prev, b);
    assert |prev| / 2 == h;
    if b {
      assert prev[..h] == first[o'..o' + h];
    } else {
      assert prev[h..2 * h] == first[o'..o' + h];
    }
  }

  /** The reply selects: where every later dimension's GSW acts as the bit
      bits[d], make_query answers with the first-dimension result at
      Offset(bits, ndim - 1), switched to the next modulus level. */
  lemma ReplySelects(ctx: Context, s: Seal, special: nat, p: PirParams.Params, db: seq<Slot>,
                     gswKey: seq<seq<nat>>, query: Ct, bits: seq<bool>)
    requires Serving(ctx, p, db, gswKey) && SealValid(ctx, s) && IsCt2(ctx, query)
    requires Selectors(ctx, s, p.dataGsw, QueryGsws(ctx, s, special, p, db, gswKey, query), bits)
    ensures Offset(bits, |bits|) < Pow2(|bits|)
    ensures ReplyOf(ctx, s, special, p, db, gswKey, query)
         == [s.modSwitch(FirstDimResults(ctx, s, special, p, db, gswKey, query)[Offset(bits, |bits|)])]
  {
    var first := FirstDimResults(ctx, s, special, p, db, gswKey, query);
    var gs := QueryGsws(ctx, s, special, p, db, gswKey, query);
    ReplyIsLast(ctx, s, special, p, db, gswKey, query);
    FoldedLast(ctx, s, p.dataGsw, gs, first, bits);
  }

  /** The reply is the last folded result, switched. */
  lemma ReplyIsLast(ctx: Context, s: Seal, special: nat, p: PirParams.Params, db: seq<Slot>,
                    gswKey: seq<seq<nat>>, query: Ct)
    requires Serving(ctx, p, db, gswKey) && SealValid(ctx, s) && IsCt2(ctx, query)
    ensures var first := FirstDimResults(ctx, s, special, p, db, gswKey, query);
      var gs := QueryGsws(ctx, s, special, p, db, gswKey, query);
      ReplyOf(ctx, s, special, p, db, gswKey, query) == [s.modSwitch(Folded(ctx, s, p.dataGsw, gs, first, |gs|)[0])]
  {
  }

  /** After all k selection GSWs one result is left: the one at
      Offset(bits, k). */
  lemma FoldedLast(ctx: Context, s: Seal, e: Eval, gs: seq<seq<seq<nat>>>, first: seq<Ct>, bits: seq<bool>)
    requires Valid(ctx) && SealValid(ctx, s)
    requires forall d :: 0 <= d < |gs| ==> IsGsw(ctx, e, gs[d])
    requires |first| == Pow2(|gs|) && forall j :: 0 <= j < |first| ==> IsCt2(ctx, first[j])
    requires Selectors(ctx, s, e, gs, bits)
    ensures Offset(bits, |bits|) < Pow2(|bits|)
    ensures Folded(ctx, s, e, gs, first, |gs|) == [first[Offset(bits, |bits|)]]
  {
    assert |bits| == |gs|;
    FoldSelects(ctx, s, e, gs, first, bits, |gs|);
    var last, o := Folded(ctx, s, e, gs, first, |gs|), Offset(bits, |gs|);
    assert |last| == Pow2(0) == 1;
    assert RunAt(last, first, o);
    assert last[0] == first[o];
  }

  /** Padding leaves every non-empty entry at least entry_size long, so a
      database with non-empty whole groups can be packed. */
  lemma PaddedPackable(db: seq<seq<Byte>>, epp: nat, es: nat)
    requires epp >= 1
    requires forall j :: 0 <= j < Database.PlaintextCount(|db|, epp) * epp ==> |db[j]| >= 1 || es == 0
    ensures Database.Packable(Database.PadAll(db, es), epp, es)
  {
    var padded := Database.PadAll(db, es);
    forall j | 0 <= j < Database.PlaintextCount(|padded|, epp) * epp
      ensures |padded[j]| >= es
    {
      assert padded[j] == Database.PadEntry(db[j], es);
    }
  }

  /** The slots set_database pushes: the plaintext loop over the
      num_plaintexts = |db| / entries_per_plaintext whole groups, then the
      absent slots up to DBSize. */
  method PackSlots(padded: seq<seq<Byte>>, epp: nat, es: nat, bpc: nat, n: nat, dbSize: nat) returns (slots: seq<Slot>)
    requires epp >= 1 && 1 <= bpc <= 64 && epp * es * 8 <= n * bpc
    requires Database.Packable(padded, epp, es)
    ensures slots == PackedSlots(padded, epp, es, bpc, n, dbSize)
  {
    var numPlaintexts := |padded| / epp;
    QuotRemIsDivMod(|padded|, epp);
    ghost var packed := PackedSlots(padded, epp, es, bpc, n, dbSize);
    var sumSize := epp * es;
    slots := [];
    var i := 0;
    while i < numPlaintexts
      invariant 0 <= i <= numPlaintexts && |slots| == i
      invariant forall j :: 0 <= j < i ==> slots[j] == packed[j]
    {
      var slot := PackSlot(padded, epp, es, bpc, n, sumSize, i);
      assert slot == packed[i];
      slots := slots + [slot];
      i := i + 1;
    }
    while |slots| < dbSize
      invariant numPlaintexts <= |slots| <= |packed|
      invariant forall j :: 0 <= j < |slots| ==> slots[j] == packed[j]
    {
      slots := slots + [None];
    }
  }

  /** Plaintext i of the loop: absent when sum_size is zero, else the
      group from entry epp * i packed. */
  method PackSlot(padded: seq<seq<Byte>>, epp: nat, es: nat, bpc: nat, n: nat, sumSize: nat, i: nat)
      returns (slot: Slot)
    requires epp >= 1 && 1 <= bpc <= 64 && epp * es * 8 <= n * bpc && sumSize == epp * es
    requires Database.Packable(padded, epp, es) && i < Database.PlaintextCount(|padded|, epp)
    ensures slot == if sumSize != 0 then Some(Database.PlaintextOf(padded, epp, es, bpc, n, i)) else None
  {
    if sumSize == 0 {
      slot := None;
    } else {
      Database.GroupInRange(padded, epp, i);
      assert epp * i == i * epp;
      var pt := Database.PackPlaintext(padded, epp * i, epp, es, bpc, n);
      slot := Some(pt);
    }
  }

  /** The NTT loop of evaluate_first_dim_delayed_mod, in place on the
      first d0 selection ciphertexts. */
  method NttPrefix(ctx: Context, s: Seal, selectionVector: array<Ct>, d0: nat)
    requires Valid(ctx) && SealValid(ctx, s) && Selection(ctx, selectionVector[..], d0)
    modifies selectionVector
    ensures selectionVector[..] == NttFirst(ctx, s, old(selectionVector[..]), d0)
  {
    ghost var before := selectionVector[..];
    var i := 0;
    while i < d0
      invariant 0 <= i <= d0 <= selectionVector.Length
      invariant forall j :: 0 <= j < selectionVector.Length ==>
        selectionVector[j] == if j < i then NttCt(ctx, s, before[j]) else before[j]
    {
      selectionVector[i] := NttCt(ctx, s, selectionVector[i]);
      i := i + 1;
    }
    assert selectionVector[..] == NttFirst(ctx, s, before, d0);
  }

  /** The first loop of evaluate_gsw_product: for i < block, result[i]
      becomes result[i] - result[i + block] and then its external product
      with the selection GSW, in place; those are returned in order. */
  method SubtractMultiply(ctx: Context, s: Seal, e: Eval, result: array<Ct>, selectionCipher: seq<seq<nat>>)
      returns (products: seq<Ct>)
    requires Valid(ctx) && SealValid(ctx, s) && IsGsw(ctx, e, selectionCipher) && DigitsFit(ctx, e)
    requires forall i :: 0 <= i < result.Length ==> IsCt2(ctx, result[i])
    modifies result
    ensures |products| == result.Length / 2
    ensures forall i :: 0 <= i < result.Length ==>
      result[i] == if i < result.Length / 2 then PairProduct(ctx, s, e, selectionCipher, old(result[..]), i)
                   else old(result[i])
    ensures forall i :: 0 <= i < |products| ==> products[i] == result[i]
  {
    var blockSize := result.Length / 2;
    ghost var before := result[..];
    products := [];
    var i := 0;
    while i < blockSize
      invariant 0 <= i <= blockSize && |products| == i
      invariant forall j :: 0 <= j < result.Length ==>
        result[j] == if j < i then PairProduct(ctx, s, e, selectionCipher, before, j) else before[j]
      invariant forall j :: 0 <= j < i ==> products[j] == result[j]
    {
      var prod := MultiplyPair(ctx, s, e, result, selectionCipher, before, i);
      products := products + [prod];
      i := i + 1;
    }
  }

  /** Pair i of the first loop: result[i] minus result[i + block], then
      the external product with the selection GSW, in place. */
  method MultiplyPair(ctx: Context, s: Seal, e: Eval, result: array<Ct>, selectionCipher: seq<seq<nat>>,
                      ghost before: seq<Ct>, i: nat)
      returns (prod: Ct)
    requires Valid(ctx) && SealValid(ctx, s) && IsGsw(ctx, e, selectionCipher) && DigitsFit(ctx, e)
    requires forall j :: 0 <= j < |before| ==> IsCt2(ctx, before[j])
    requires result.Length == |before| && i < |before| / 2
    requires result[i] == before[i] && result[i + |before| / 2] == before[i + |before| / 2]
    modifies result
    ensures prod == PairProduct(ctx, s, e, selectionCipher, before, i)
    ensures result[..] == old(result[..])[i := prod]
  {
    var x, y := result[i], result[i + result.Length / 2];
    assert IsCt2(ctx, x) && IsCt2(ctx, y);
    result[i] := SubCt(ctx, x, y);
    prod := ExternalProduct(ctx, s, e, selectionCipher, result[i]);
    result[i] := prod;
  }

  /** The second loop of evaluate_gsw_product: each product transformed
      back from the NTT domain, plus result[j + block]. */
  method AddHalves(ctx: Context, s: Seal, e: Eval, selectionCipher: seq<seq<nat>>, ghost before: seq<Ct>,
                   products: seq<Ct>, result: seq<Ct>)
      returns (resultVector: seq<Ct>)
    requires Valid(ctx) && SealValid(ctx, s) && IsGsw(ctx, e, selectionCipher)
    requires forall i :: 0 <= i < |before| ==> IsCt2(ctx, before[i])
    requires |products| == |before| / 2 && |result| == |before|
    requires forall i :: |products| <= i < |before| ==> result[i] == before[i]
    requires forall i :: 0 <= i < |products| ==> products[i] == PairProduct(ctx, s, e, selectionCipher, before, i)
    ensures resultVector == GswProductOf(ctx, s, e, selectionCipher, before)
  {
    var blockSize := |products|;
    ghost var target := GswProductOf(ctx, s, e, selectionCipher, before);
    resultVector := products;
    var j := 0;
    while j < blockSize
      invariant 0 <= j <= blockSize && |resultVector| == blockSize
      invariant forall k :: 0 <= k < blockSize ==> resultVector[k] == if k < j then target[k] else products[k]
    {
      assert IsCt2(ctx, resultVector[j]) && IsCt2(ctx, result[j + blockSize]);
      GswProductAt(ctx, s, e, selectionCipher, before, j);
      resultVector := resultVector[j := AddCt(ctx, InvNttCt(ctx, s, resultVector[j]), result[j + blockSize])];
      j := j + 1;
    }
  }

  /** The factor loop of expand_query: the least e with 2^e >= exp. */
  method ExpansionFactor(exp: nat) returns (expansionFactor: nat)
    ensures expansionFactor == CeilLog2(exp)
  {
    expansionFactor := 0;
    while Pow2(expansionFactor) < exp
      invariant expansionFactor == 0 || Pow2(expansionFactor - 1) < exp
      decreases exp - Pow2(expansionFactor)
    {
      expansionFactor := expansionFactor + 1;
    }
    CeilLog2Is(exp, expansionFactor);
  }

  /** The rounds of expand_query on cipher_vec of 2^e slots. */
  method ExpandRounds(ctx: Context, s: Seal, special: nat, ciphertext: Ct, ef: nat) returns (cipherVec: seq<Ct>)
    requires Valid(ctx) && SealValid(ctx, s) && IsCt2(ctx, ciphertext)
    ensures cipherVec == ExpandedAfter(ctx, s, special, ciphertext, ef, ef)
  {
    cipherVec := [ciphertext] + seq(Pow2(ef) - 1, _ => []);
    assert cipherVec == ExpandedAfter(ctx, s, special, ciphertext, ef, 0);
    var a := 0;
    while a < ef
      invariant 0 <= a <= ef
      invariant cipherVec == ExpandedAfter(ctx, s, special, ciphertext, ef, a)
    {
      var expansionConst := Pow2(a);
      ExpandedStep(ctx, s, special, ciphertext, ef, a);
      cipherVec := ExpandRoundInPlace(ctx, s, special, cipherVec, expansionConst);
      a := a + 1;
    }
  }

  // ---------------------------------------------------------------------
  // The server object

  /** PirServer: the parameters it was built with, the SEAL context and
      operations, and the state set_database and set_client_gsw_key fill in. */
  class PirServer {
    const params: PirParams.Params
    const ctx: Context
    const special: nat   // the special prime after the context's moduli
    const s: Seal
    var db: seq<Slot>                          // db_
    var gswKeys: map<nat, seq<seq<nat>>>       // client_gsw_keys_

    /** The parameters the packing and the SEAL operations rely on. */
    ghost predicate Configured()
    {
      && Valid(ctx) && SealValid(ctx, s)
      && params.epp >= 1 && 1 <= params.bpc <= 64
      && params.epp * params.entrySize * 8 <= ctx.n * params.bpc
    }

    /** Copies the parameters; the database and the client keys are empty. */
    constructor (params: PirParams.Params, ctx: Context, special: nat, s: Seal)
      ensures this.params == params && this.ctx == ctx && this.special == special && this.s == s
      ensures db == [] && gswKeys == map[]
    {
      this.params := params;
      this.ctx := ctx;
      this.special := special;
      this.s := s;
      db := [];
      gswKeys := map[];
    }

    /** set_client_gsw_key: stores (or replaces) the client's GSW key. */
    method SetClientGswKey(clientId: nat, gswKey: seq<seq<nat>>)
      modifies this
      ensures gswKeys == old(gswKeys)[clientId := gswKey] && db == old(db)
    {
      gswKeys := gswKeys[clientId := gswKey];
    }

    /** preprocess_ntt: every present plaintext goes to the NTT domain. */
    method PreprocessNtt()
      modifies this
      ensures db == NttSlots(s, old(db)) && gswKeys == old(gswKeys)
    {
      ghost var before := db;
      var i := 0;
      while i < |db|
        invariant 0 <= i <= |db| == |before|
        invariant forall j :: 0 <= j < |db| ==> db[j] == if j < i then NttSlot(s, before[j]) else before[j]
        invariant gswKeys == old(gswKeys)
      {
        if db[i].Some? {
          db := db[i := Some(s.nttPlain(db[i].value))];
        }
        i := i + 1;
      }
    }

    /** set_database: pads the entries in place, packs every whole group of
        entries_per_plaintext entries into a plaintext (an absent slot when
        sum_size is zero), pads with absent slots up to DBSize and runs
        preprocess_ntt. Every entry of a whole group must be non-empty,
        since the packing reads entry_size bytes of each. */
    method SetDatabase(newDb: array<seq<Byte>>)
      requires Configured()
      requires forall j :: 0 <= j < Database.PlaintextCount(newDb.Length, params.epp) * params.epp ==>
        |newDb[j]| >= 1 || params.entrySize == 0
      modifies this, newDb
      ensures newDb[..] == Database.PadAll(old(newDb[..]), params.entrySize)
      ensures Database.Packable(newDb[..], params.epp, params.entrySize)
      ensures db == DatabaseOf(s, newDb[..], params.epp, params.entrySize, params.bpc, ctx.n, params.dbSize)
      ensures gswKeys == old(gswKeys)
    {
      var epp, es := params.epp, params.entrySize;
      Database.PadEntries(newDb, es);
      PaddedPackable(old(newDb[..]), epp, es);
      var slots := PackSlots(newDb[..], epp, es, params.bpc, ctx.n, params.dbSize);
      db := slots;
      PreprocessNtt();
    }

    /** evaluate_first_dim_delayed_mod: the first dims[0] selection
        ciphertexts go to the NTT domain in place; then one result per
        column of DBSize / dims[0] slots. */
    method EvaluateFirstDimDelayedMod(selectionVector: array<Ct>) returns (result: seq<Ct>)
      requires Valid(ctx) && SealValid(ctx, s) && |params.dims| >= 1 && params.dims[0] >= 1
      requires Selection(ctx, selectionVector[..], params.dims[0])
      requires SlotsReduced(ctx, db) && params.dims[0] * Quot(params.dbSize, params.dims[0]) <= |db|
      modifies selectionVector
      ensures selectionVector[..] == NttFirst(ctx, s, old(selectionVector[..]), params.dims[0])
      ensures result == FirstDimOf(ctx, s, selectionVector[..], db, params.dims[0], Quot(params.dbSize, params.dims[0]))
    {
      var d0 := params.dims[0];
      var other := params.dbSize / d0;
      QuotRemIsDivMod(params.dbSize, d0);
      NttPrefix(ctx, s, selectionVector, d0);
      var sel := selectionVector[..];
      result := [];
      var col := 0;
      while col < other
        invariant 0 <= col <= other && |result| == col
        invariant selectionVector[..] == sel
        invariant forall c :: 0 <= c < col ==> result[c] == FirstDimColumn(ctx, s, sel, db, d0, other, c)
      {
        var ct := AccumulateColumn(ctx, s, sel, db, d0, other, col);
        result := result + [ct];
        col := col + 1;
      }
    }

    /** evaluate_gsw_product: result[i] becomes the external product of the
        selection GSW with result[i] - result[i + block] for i < block =
        |result| / 2; the returned vector holds those, transformed back,
        plus result[i + block]. */
    method EvaluateGswProduct(result: array<Ct>, selectionCipher: seq<seq<nat>>) returns (resultVector: seq<Ct>)
      requires Valid(ctx) && SealValid(ctx, s)
      requires IsGsw(ctx, params.dataGsw, selectionCipher) && DigitsFit(ctx, params.dataGsw)
      requires forall i :: 0 <= i < result.Length ==> IsCt2(ctx, result[i])
      modifies result
      ensures resultVector == GswProductOf(ctx, s, params.dataGsw, selectionCipher, old(result[..]))
      ensures forall i :: 0 <= i < result.Length ==>
        result[i] == if i < result.Length / 2 then PairProduct(ctx, s, params.dataGsw, selectionCipher, old(result[..]), i)
                     else old(result[i])
    {
      var products := SubtractMultiply(ctx, s, params.dataGsw, result, selectionCipher);
      resultVector := AddHalves(ctx, s, params.dataGsw, selectionCipher, old(result[..]), products, result[..]);
    }

    /** PirServer::make_query for a client whose GSW key is set: expand
        the query, evaluate the first dimension, then for every further
        dimension build its selection GSW from the next l expanded slots
        and halve the results by evaluate_gsw_product; the last one left
        is switched to the next modulus level. */
    method MakeQuery(clientId: nat, query: Ct) returns (result: seq<Ct>)
      requires clientId in gswKeys && Serving(ctx, params, db, gswKeys[clientId])
      requires SealValid(ctx, s) && IsCt2(ctx, query)
      ensures result == ReplyOf(ctx, s, special, params, db, gswKeys[clientId], query)
    {
      var gswKey := gswKeys[clientId];
      var queryVector := ExpandQuery(query);
      var selectionVector := new Ct[|queryVector|](j requires 0 <= j < |queryVector| => queryVector[j]);
      assert selectionVector[..] == queryVector;
      OtherDims(params.dims, params.dbSize);
      var first := EvaluateFirstDimDelayedMod(selectionVector);
      var sel := selectionVector[..];
      assert sel == SelectionOf(ctx, s, special, params, query);
      assert first == FirstDimResults(ctx, s, special, params, db, gswKey, query);
      result := FoldDimensions(gswKey, sel, first);
      ReplyIsLast(ctx, s, special, params, db, gswKey, query);
      result := result[0 := s.modSwitch(result[0])];
    }

    /** The loop of make_query over dimensions 1 .. ndim-1, ptr running
        over the expanded slots from dims[0] in steps of l. */
    method FoldDimensions(gswKey: seq<seq<nat>>, sel: seq<Ct>, first: seq<Ct>) returns (result: seq<Ct>)
      requires Serving(ctx, params, db, gswKey) && SealValid(ctx, s)
      requires Client.MsgSize(params.dims, params.dataGsw.l) <= |sel|
      requires forall j :: 0 <= j < |sel| ==> IsCt2(ctx, sel[j])
      requires |first| == Pow2(|params.dims| - 1) && forall j :: 0 <= j < |first| ==> IsCt2(ctx, first[j])
      ensures var gs := DimensionGsws(ctx, s, params, gswKey, sel); result == Folded(ctx, s, params.dataGsw, gs, first, |gs|)
    {
      ghost var gs := DimensionGsws(ctx, s, params, gswKey, sel);
      var ndim, d0, l := |params.dims|, params.dims[0], params.dataGsw.l;
      result := first;
      var ptr := d0;
      var i := 1;
      while i < ndim
        invariant 1 <= i <= ndim
        invariant ptr == Client.SlotStart(d0, l, i)
        invariant result == Folded(ctx, s, params.dataGsw, gs, first, i - 1)
      {
        DimensionGswsAt(ctx, s, params, gswKey, sel, i - 1);
        result, ptr := DimensionStep(gswKey, sel, i, ptr, result);
        Client.SlotStartSucc(d0, l, i);
        i := i + 1;
      }
      assert result == Folded(ctx, s, params.dataGsw, gs, first, |gs|);
    }

    /** One dimension i >= 1 of make_query: the l expanded slots from ptr
        become the selection GSW, which halves the results. */
    method DimensionStep(gswKey: seq<seq<nat>>, sel: seq<Ct>, i: nat, ptr: nat, result: seq<Ct>)
        returns (next: seq<Ct>, ptr': nat)
      requires Serving(ctx, params, db, gswKey) && SealValid(ctx, s)
      requires Client.MsgSize(params.dims, params.dataGsw.l) <= |sel|
      requires forall j :: 0 <= j < |sel| ==> IsCt2(ctx, sel[j])
      requires 1 <= i < |params.dims| && ptr == Client.SlotStart(params.dims[0], params.dataGsw.l, i)
      requires forall j :: 0 <= j < |result| ==> IsCt2(ctx, result[j])
      ensures ptr' == ptr + params.dataGsw.l
      ensures next == GswProductOf(ctx, s, params.dataGsw, DimensionGsw(ctx, s, params, gswKey, sel, i), result)
    {
      var l := params.dataGsw.l;
      SlotFits(params.dims[0], l, |params.dims|, i);
      var lweVector := [];
      ptr' := ptr;
      var k := 0;
      while k < l
        invariant 0 <= k <= l && ptr' == ptr + k && |lweVector| == k
        invariant forall j :: 0 <= j < k ==> lweVector[j] == sel[ptr + j]
      {
        lweVector := lweVector + [sel[ptr']];
        ptr' := ptr' + 1;
        k := k + 1;
      }
      assert lweVector == sel[ptr..ptr + l];
      DimensionGswIs(ctx, s, params, gswKey, sel, i, lweVector);
      var gsw := QueryToGsw(ctx, s, params.keyGsw, lweVector, gswKey);
      QueryGswIs(ctx, s, params.keyGsw, lweVector, gswKey, gsw);
      assert gsw == DimensionGsw(ctx, s, params, gswKey, sel, i);
      var buffer := new Ct[|result|](j requires 0 <= j < |result| => result[j]);
      assert buffer[..] == result;
      next := EvaluateGswProduct(buffer, gsw);
    }

    /** expand_query: the expansion factor is the least e with
        2^e >= msg_size; cipher_vec starts as the query followed by 2^e - 1
        default ciphertexts, and round a doubles the slots in use. */
    method ExpandQuery(ciphertext: Ct) returns (cipherVec: seq<Ct>)
      requires Valid(ctx) && SealValid(ctx, s) && IsCt2(ctx, ciphertext) && |params.dims| >= 1
      ensures cipherVec == ExpandedAfter(ctx, s, special, ciphertext, Expansion(params), Expansion(params))
    {
      var exp := params.dims[0] + params.dataGsw.l * (|params.dims| - 1);
      var expansionFactor := ExpansionFactor(exp);
      cipherVec := ExpandRounds(ctx, s, special, ciphertext, expansionFactor);
    }
  }
}
