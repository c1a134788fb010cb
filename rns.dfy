/** The RNS layout of SEAL polynomials and ciphertexts as the core code sees
    them: a polynomial is N*K machine words, K blocks of N coefficients,
    block m reduced modulo q_m; a ciphertext is a sequence of such
    polynomials. The library operations the core calls but does not
    implement (NTT, RNS compose, encryption, Galois automorphisms, modulus
    switching) are parameters, each with the shape contract the core relies
    on. */
module Rns {
  import opened Arith

  /** Polynomial degree N and the coefficient moduli q_0 .. q_{K-1} of the
      first (data) level. */
  datatype Context = Context(n: nat, moduli: seq<nat>)

  predicate Valid(ctx: Context)
  {
    && ctx.n >= 1 && IsPow2(ctx.n) && 2 * ctx.n <= U64
    && |ctx.moduli| >= 1
    && forall m :: 0 <= m < |ctx.moduli| ==> 2 <= ctx.moduli[m] < U64
  }

  /** K, the number of RNS blocks. */
  function K(ctx: Context): nat
  {
    |ctx.moduli|
  }

  /** N*K, the number of words in one polynomial. */
  function Len(ctx: Context): nat
  {
    ctx.n * |ctx.moduli|
  }

  type Poly = seq<nat>
  type Ct = seq<Poly>

  lemma BlockIndex(c: nat, n: nat, k: nat)
    requires n >= 1 && c < n * k
    ensures c / n < k
  {
    var q := c / n;
    assert q * n <= c;
    if q >= k {
      MulMono(k, q, n);
    }
  }

  /** The block that word c of k blocks of n words belongs to. */
  function Block(n: nat, k: nat, c: nat): (m: nat)
    requires n >= 1 && c < n * k
    ensures m < k
  {
    BlockIndex(c, n, k);
    c / n
  }

  /** Word c is word c % n of its block, which lies inside the k blocks. */
  lemma BlockSplit(n: nat, k: nat, c: nat)
    requires n >= 1 && c < n * k
    ensures c == Block(n, k, c) * n + c % n
    ensures Block(n, k, c) * n + n <= n * k
  {
    var m := Block(n, k, c);
    MulMono(m + 1, k, n);
  }

  /** Word m*n + j lies in block m, at offset j. */
  lemma BlockWord(n: nat, k: nat, m: nat, j: nat)
    requires n >= 1 && m < k && j < n
    ensures m * n + j < n * k
    ensures Block(n, k, m * n + j) == m && (m * n + j) % n == j
  {
    DivModUnique(m * n + j, n, m, j);
    MulMono(m + 1, k, n);
  }

  /** Word m*N + j lies in block m and is reduced modulo q_m. */
  lemma BlockOf(ctx: Context, m: nat, j: nat)
    requires Valid(ctx) && m < K(ctx) && j < ctx.n
    ensures m * ctx.n + j < Len(ctx)
    ensures ModAt(ctx, m * ctx.n + j) == ctx.moduli[m] && (m * ctx.n + j) % ctx.n == j
  {
    BlockWord(ctx.n, K(ctx), m, j);
  }

  /** The modulus of the block that word c belongs to. */
  function ModAt(ctx: Context, c: nat): (q: nat)
    requires Valid(ctx) && c < Len(ctx)
    ensures 2 <= q < U64
    ensures q in ctx.moduli
  {
    ctx.moduli[Block(ctx.n, K(ctx), c)]
  }

  predicate IsPoly(ctx: Context, p: Poly)
  {
    |p| == Len(ctx)
  }

  /** Every word is reduced modulo its block's modulus. */
  predicate Reduced(ctx: Context, p: Poly)
    requires Valid(ctx)
  {
    IsPoly(ctx, p) && forall c :: 0 <= c < |p| ==> p[c] < ModAt(ctx, c)
  }

  predicate IsCt(ctx: Context, ct: Ct)
    requires Valid(ctx)
  {
    forall j :: 0 <= j < |ct| ==> Reduced(ctx, ct[j])
  }

  /** A two-polynomial ciphertext, the only size the core works with. */
  predicate IsCt2(ctx: Context, ct: Ct)
    requires Valid(ctx)
  {
    |ct| == 2 && IsCt(ctx, ct)
  }

  /** Coefficient-wise addition modulo each block's modulus (SEAL's
      add_inplace on one polynomial). */
  function AddPoly(ctx: Context, a: Poly, b: Poly): (r: Poly)
    requires Valid(ctx) && IsPoly(ctx, a) && IsPoly(ctx, b)
    ensures Reduced(ctx, r)
  {
    seq(Len(ctx), c requires 0 <= c < Len(ctx) => (a[c] + b[c]) % ModAt(ctx, c))
  }

  /** Coefficient-wise subtraction modulo each block's modulus. */
  function SubPoly(ctx: Context, a: Poly, b: Poly): (r: Poly)
    requires Valid(ctx) && IsPoly(ctx, a) && IsPoly(ctx, b)
    ensures Reduced(ctx, r)
  {
    seq(Len(ctx), c requires 0 <= c < Len(ctx) => ((a[c] - b[c]) % ModAt(ctx, c)) as nat)
  }

  function AddCt(ctx: Context, x: Ct, y: Ct): (r: Ct)
    requires Valid(ctx) && |x| == |y|
    requires forall j :: 0 <= j < |x| ==> IsPoly(ctx, x[j]) && IsPoly(ctx, y[j])
    ensures |r| == |x| && IsCt(ctx, r)
  {
    seq(|x|, j requires 0 <= j < |x| => AddPoly(ctx, x[j], y[j]))
  }

  function SubCt(ctx: Context, x: Ct, y: Ct): (r: Ct)
    requires Valid(ctx) && |x| == |y|
    requires forall j :: 0 <= j < |x| ==> IsPoly(ctx, x[j]) && IsPoly(ctx, y[j])
    ensures |r| == |x| && IsCt(ctx, r)
  {
    seq(|x|, j requires 0 <= j < |x| => SubPoly(ctx, x[j], y[j]))
  }

  lemma MulAtLeast(a: int, q: int)
    requires a >= 1 && q > 0
    ensures a * q >= q
  {
    assert a * q == q + (a - 1) * q;
  }

  /** Uniqueness of the Euclidean remainder on int. */
  lemma IntModUnique(z: int, q: int, m: int, x: int)
    requires q > 0 && 0 <= x < q && z == m * q + x
    ensures z % q == x
  {
    var m', r' := z / q, z % q;
    assert z == m' * q + r';
    assert (m - m') * q == r' - x;
    if m > m' {
      MulAtLeast(m - m', q);
    } else if m < m' {
      MulAtLeast(m' - m, q);
    }
  }

  lemma ModSubAdd(x: int, y: int, q: nat)
    requires q > 0 && 0 <= x < q
    ensures (((x - y) % q) + y) % q == x
  {
    var d := x - y;
    var k := d / q;
    assert d == k * q + d % q;
    IntModUnique(d % q + y, q, -k, x);
  }

  /** (x - y) + y == x for a reduced x, whatever y is: the identity behind
      the server's selection of one half of a ciphertext vector. */
  lemma SubAddCancel(ctx: Context, x: Poly, y: Poly)
    requires Valid(ctx) && Reduced(ctx, x) && IsPoly(ctx, y)
    ensures AddPoly(ctx, SubPoly(ctx, x, y), y) == x
  {
    var s := SubPoly(ctx, x, y);
    var r := AddPoly(ctx, s, y);
    forall c | 0 <= c < Len(ctx)
      ensures r[c] == x[c]
    {
      ModSubAdd(x[c], y[c], ModAt(ctx, c));
    }
  }

  /** 0 + y == y for a reduced y. */
  lemma ZeroAdd(ctx: Context, z: Poly, y: Poly)
    requires Valid(ctx) && IsPoly(ctx, z) && Reduced(ctx, y)
    requires forall c :: 0 <= c < |z| ==> z[c] == 0
    ensures AddPoly(ctx, z, y) == y
  {
    var r := AddPoly(ctx, z, y);
    forall c | 0 <= c < Len(ctx)
      ensures r[c] == y[c]
    {
      SmallDivMod(y[c], ModAt(ctx, c));
    }
  }

  /** The library operations the core calls, as functions of their inputs.
      Randomness (encryption noise, fresh masks) is part of the function. */
  datatype Seal = Seal(
    ntt: Poly -> Poly,         // ntt_negacyclic_harvey on every block
    invNtt: Poly -> Poly,      // inverse_ntt_negacyclic_harvey on every block
    compose: Poly -> seq<nat>, // RNSBase::compose_array: N residue vectors to N integers
    nttPlain: seq<nat> -> Poly,// transform_to_ntt_inplace on a plaintext
    encrypt: seq<nat> -> Ct,   // encrypt_symmetric of a plaintext
    galois: (Ct, nat) -> Ct,   // apply_galois_inplace with the client's keys
    modSwitch: Ct -> Ct)       // mod_switch_to_next_inplace

  /** The shape each operation keeps: reduced polynomials of N*K words,
      N composed integers per polynomial, two-polynomial ciphertexts. */
  ghost predicate SealValid(ctx: Context, s: Seal)
    requires Valid(ctx)
  {
    && (forall p {:trigger s.ntt(p)} :: IsPoly(ctx, p) ==> Reduced(ctx, s.ntt(p)))
    && (forall p {:trigger s.invNtt(p)} :: IsPoly(ctx, p) ==> Reduced(ctx, s.invNtt(p)))
    && (forall p {:trigger s.compose(p)} :: IsPoly(ctx, p) ==> |s.compose(p)| == ctx.n)
    && (forall pt {:trigger s.nttPlain(pt)} :: Reduced(ctx, s.nttPlain(pt)))
    && (forall pt {:trigger s.encrypt(pt)} :: IsCt2(ctx, s.encrypt(pt)))
    && (forall ct, e {:trigger s.galois(ct, e)} :: IsCt2(ctx, ct) ==> IsCt2(ctx, s.galois(ct, e)))
  }

  /** The Chinese-remainder contract of compose_array: composed integer j of
      a reduced polynomial is below the product of the moduli and congruent
      to word m*N + j modulo q_m. */
  ghost predicate ComposeIsCrt(ctx: Context, s: Seal)
    requires Valid(ctx)
  {
    forall p {:trigger s.compose(p)} :: Reduced(ctx, p) ==>
      && |s.compose(p)| == ctx.n
      && (forall j :: 0 <= j < ctx.n ==> s.compose(p)[j] < Product(ctx.moduli))
      && (forall c :: 0 <= c < |p| ==> s.compose(p)[c % ctx.n] % ModAt(ctx, c) == p[c])
  }

  /** NTT of every polynomial of a ciphertext. */
  function NttCt(ctx: Context, s: Seal, ct: Ct): (r: Ct)
    requires Valid(ctx) && SealValid(ctx, s)
    requires forall j :: 0 <= j < |ct| ==> IsPoly(ctx, ct[j])
    ensures |r| == |ct| && IsCt(ctx, r)
  {
    seq(|ct|, j requires 0 <= j < |ct| => s.ntt(ct[j]))
  }

  function InvNttCt(ctx: Context, s: Seal, ct: Ct): (r: Ct)
    requires Valid(ctx) && SealValid(ctx, s)
    requires forall j :: 0 <= j < |ct| ==> IsPoly(ctx, ct[j])
    ensures |r| == |ct| && IsCt(ctx, r)
  {
    seq(|ct|, j requires 0 <= j < |ct| => s.invNtt(ct[j]))
  }

  /** RNSBase::decompose_array: N integers become their residues, word
      m*N + j holding vals[j] mod q_m. */
  function Decompose(ctx: Context, vals: seq<nat>): (r: Poly)
    requires Valid(ctx) && |vals| == ctx.n
    ensures Reduced(ctx, r)
  {
    seq(Len(ctx), c requires 0 <= c < Len(ctx) => vals[c % ctx.n] % ModAt(ctx, c))
  }
}
