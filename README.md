# OnionPIR core in Dafny

OnionPIR is a single-server private information retrieval scheme on top of
the BFV scheme of Microsoft SEAL. A client encrypts one ciphertext that
encodes the index of the plaintext it wants to read. The server works in
four steps:

- It expands that ciphertext into 2^e selection ciphertexts, using Galois
  automorphisms and negacyclic shifts.
- It takes the dot product of the first dims[0] of them with the columns
  of the database. The product is accumulated in 128 bits and reduced once.
- Every later dimension of size 2 halves the result vector. It turns the
  next l expanded slots into a GSW ciphertext, and an external product with
  that ciphertext acts as a multiplexer.
- The single ciphertext left is switched to the next modulus level and
  returned.

The client reads the entry back out of the decrypted plaintext.

The model covers these parts of the code:

- the parameter checks;
- the client's index arithmetic, query construction and Galois element list;
- the database layout: padding, and the packing of bytes into bpc-bit
  coefficients;
- the server's set_database, expand_query, the delayed-modulus first
  dimension, evaluate_gsw_product and make_query;
- GSWEval's decomposition, external product, GSW encryption and
  query_to_gsw;
- the negacyclic shift and the two gadget tables.

Modules follow the source files:

| module | models |
|---|---|
| `Rns` | SEAL's RNS layout: a polynomial is N*K words, K blocks of N coefficients, block m reduced modulo q_m. Also the record `Seal` of library operations. |
| `Utils` | `src/utils.cpp` |
| `Rgsw` | `src/rgsw.cpp` |
| `Accum` | the 128-bit `multiply_poly_acum` |
| `ExternalProd` | `src/external_prod.cpp` |
| `PirParams` | `src/includes/pir.h` |
| `Client` | `src/client.cpp` |
| `Database` | the set_database packing |
| `Server` | `src/server.cpp`, with the class `PirServer` |
| `Digits`, `Arith`, `Wrappers` | helpers: little-endian digit sequences, powers of two and bit operations on `nat`, Option/Result |

Where the code works in place, the model is imperative: arrays, loops with
invariants, and a `PirServer` class whose fields are the database and the
client keys. Every such method is proved equal to a function of its inputs.
The properties the code relies on are proved about those functions:

- the round trip from entry to packed plaintext and back;
- that the delayed reduction equals the modular dot product;
- the gadget identities;
- the multiplexer identity;
- the selection of one first-dimension result by the GSW bits.

SEAL is not modelled. NTT, RNS compose and decompose, encryption, Galois
automorphisms and modulus switching are fields of the datatype `Seal`, with
the shape contract (`SealValid`) that the core relies on. Randomness is part
of those functions. The zero encryptions of `encrypt_plain_to_gsw` are an
input, and the modular inverse `try_invert_uint_mod` is the parameter
`invert`.

Points where the code's behaviour is easy to misread:

- `evaluate_gsw_product` (src/server.cpp:118-127) computes `b * (x - y) + y`,
  with x in the first half and y in the second. A 1 bit keeps the first
  half (`Server.GswSelects`).
- For an over-long entry, src/server.cpp:253-255 constructs an
  `invalid_argument` but never throws it. The entry is kept as it is.
- `decomp_rlwe` emits the least significant digit first.

## Model

| member | source | states |
|---|---|---|
| Utils.NegacyclicShiftPolyCoeffmod | src/utils.cpp:4-24 | It writes exactly the N words of the block. Every other word of the array is unchanged. The block becomes `NegacyclicShifted(poly, shift, q)`: input i lands at `(shift + i) & (N-1)`, negated when `index_raw & N` is set and the input is not zero. `index_raw` is computed in uint64_t. |
| Utils.ShiftLoop | src/utils.cpp:12-23 | The shift != 0 loop produces the same block as `NegacyclicShifted`, and the rest of the array is untouched. |
| Utils.ShiftOne | src/utils.cpp:14-22 | One iteration extends the invariant by one input: outputs whose source is below i+1 hold their shifted value, and the others hold their old value. |
| Utils.CopyUnshifted | src/utils.cpp:7-10 | The shift == 0 branch (`set_uint`) gives the same block as the shift by zero. |
| Utils.ShiftByZero | src/utils.cpp:7-10 | A zero shift is the identity on the block. |
| Utils.ShiftLandsAt | src/utils.cpp:12-22 | Input i lands at output `Target(i)`, which is inside the block, with the value the sign rule prescribes. |
| Utils.TargetSource | src/utils.cpp:14-15 | The write index and its inverse are mutually inverse bijections of [0, N): no output is written twice or missed. |
| Utils.ShiftedBelow | src/utils.cpp:16-22 | Reduced inputs give reduced outputs. |
| Utils.ShiftIsMulXPow | src/utils.cpp:4-24 | For a power-of-two N, the shift of a reduced block is multiplication by x^shift in Z_q[x]/(x^N + 1). It equals `shift` repeated steps of multiplication by x. |
| Utils.RotIsMulXPow | src/utils.cpp:12-22 | The closed form (shifted index, negated on odd wrap) equals repeated multiplication by x. |
| Utils.MulXPowAdd | src/utils.cpp:4-24 | Shifts compose additively: x^b (x^a p) = x^(a+b) p. |
| Utils.RotPeriods | src/utils.cpp:12-22 | A shift by a multiple of 2N is the identity: the negacyclic period. |
| Utils.NegativeShiftInverts | src/utils.cpp:12-15 | A shift by `2^64 - c`, which is what `-expansion_const` becomes in a size_t, is undone by multiplying with x^c. So it is multiplication by x^(-c). |
| Utils.ShiftBlocks | src/utils.cpp:31-38 | The copy of one polynomial has its first `count` blocks shifted, each modulo its own q_j, and the other words copied. |
| Utils.ShiftPolynomial | src/utils.cpp:26-39 | `destination` has as many polynomials as `encrypted`. In each polynomial the first `coeff_modulus.size() - 1` blocks are shifted and the remaining words are copied. |
| Utils.ShiftedPolyReduced | src/utils.cpp:26-39 | With the special prime as the extra modulus, every block of a reduced data-level polynomial is shifted, and the result stays reduced. |
| Utils.GswGadget | src/utils.cpp:66-90 | `coeff_mod_count` rows of l entries. The last column is 1, and each column is the next one shifted left by base_log2 in 128 bits, then reduced mod q_i. Entry j is the (l-1-j)-th step of that recurrence. |
| Utils.ShiftModPowClosed | src/utils.cpp:73-76 | When q * 2^b fits the word, n steps of `pow = (pow << b) % q` give 2^(b*n) mod q. |
| Utils.ShiftModPow128Closed | src/utils.cpp:73-76 | For q < 2^64 and base_log2 <= 64 the 128-bit shift never wraps, so `gadget[i][j] == 2^(base_log2*(l-1-j)) mod q_i`. |
| Rgsw.GenGadget | src/rgsw.cpp:4-18 | l values, starting at 1; each is the previous one shifted left by base_log2 in uint64_t, then reduced mod t. Every value after the first is below t. |
| Rgsw.GenGadgetClosed | src/rgsw.cpp:11-15 | When t * 2^base_log2 fits in 64 bits, `gen_gadget[i] == 2^(i*base_log2) mod t`. |
| Rgsw.GenGadgetWidthsAgree | src/rgsw.cpp:11-15 | Under the same no-wrap condition, the 64-bit gen_gadget recurrence and the 128-bit gsw_gadget recurrence give the same value at every step. |
| Rgsw.GenGadgetReversesGswGadget | src/rgsw.cpp:4-18 | Under that condition, entry i of gen_gadget(t) equals column l-1-i of gsw_gadget built for the single modulus t: the two tables are each other's reverse. |
| Accum.MultiplyPolyAcum | src/external_prod.cpp:79-80 | `buf[offset + i] += a[i] * b[i]` modulo 2^128 for i < count, and nothing else in the buffer changes. |
| Accum.Acc128Exact | src/external_prod.cpp:71-82 | When n terms below t satisfy n * t <= 2^128, the 128-bit accumulator never wraps and holds the exact sum. |
| Accum.DelayedModIsEager | src/external_prod.cpp:84-95 | Reducing once at the end equals reducing after every term. |
| ExternalProd.DecompDigitIsDigit | src/external_prod.cpp:128-136 | For base_log2 <= 64, right-shifting the K-word composed value, masking the low word and clearing the high words gives the ordinary base-2^base_log2 digit p. |
| ExternalProd.DigitsReconstruct | src/external_prod.cpp:126-137 | The l digits, weighted by 2^(p*base_log2), add up to v for every v < 2^(l*base_log2). |
| ExternalProd.DigitRowInPlace | src/external_prod.cpp:127-137 | The row is the composed data with every value shifted and masked. |
| ExternalProd.DecompRlwe | src/external_prod.cpp:98-145 | The output is the 2l rows: digit p of polynomial 0 for p < l, then those of polynomial 1. Each row is composed, digit-extracted and decomposed back into residues, hence reduced. |
| ExternalProd.DecompRowsOrder | src/external_prod.cpp:120-142 | Row j*l + p is digit p of polynomial j: all rows of polynomial 0 come first. |
| ExternalProd.DecompReconstructs | src/external_prod.cpp:120-142 | The gadget identity. If compose is the CRT map and the product of the moduli is at most 2^(l*base_log2), then the l digit rows of polynomial j, weighted by 2^(p*base_log2), add up to `ct[j]` word by word modulo each block's modulus. |
| ExternalProd.AccumulateHalf | src/external_prod.cpp:74-82 | Polynomial k's 128-bit buffer is the wrapped sum, over the 2l rows, of each decomposed row times half k of the matching GSW row. |
| ExternalProd.ReduceHalf | src/external_prod.cpp:84-95 | Word m*N + i becomes the accumulated value mod q_m, and the result is reduced. |
| ExternalProd.ExternalProduct | src/external_prod.cpp:51-96 | The result is `ExternalProductOf`: decompose, NTT every row, accumulate both halves in 128 bits, reduce every word once. |
| ExternalProd.ExternalProductIsModularDot | src/external_prod.cpp:71-95 | With reduced GSW rows and 2l * q^2 <= 2^128, each output word is the modular dot product of the decomposed rows with the GSW column. It equals reducing after every product. |
| ExternalProd.Pow2Table | src/external_prod.cpp:192-200 | The table is `Pow2TableOf`: for each q_i, l+1 values from 1 by `pow = (pow << base_log2) % q_i` in 128 bits. |
| ExternalProd.Pow2TableClosed | src/external_prod.cpp:192-200 | For 64-bit moduli and base_log2 <= 64, `pow2[i][j] == 2^(j*base_log2) mod q_i`. |
| ExternalProd.ScalePoly | src/external_prod.cpp:208-221 | Each word c of block m of the chosen polynomial becomes `(ct[c] + pt[c'] * pow2[m][i] mod q_m) mod q_m`. Here c' = c for an N*K-word plaintext, and c' = c mod N for an N-word one. |
| ExternalProd.ScaledPolyIsGadgetScaled | src/external_prod.cpp:207-220 | Row i adds pt * 2^(i*base_log2) mod q_m at every word of block m. |
| ExternalProd.EncryptRows | src/external_prod.cpp:203-239 | The l rows of one polynomial: row i is the zero encryption `zeros[poly_id*l + i]` with polynomial poly_id scaled by the table's column i. The two polynomials are written one after the other. |
| ExternalProd.EncryptPlainToGsw | src/external_prod.cpp:180-243 | The output is a GSW ciphertext of 2l rows of 2*N*K words. Row r is `GswRowAt` for the pow2 table. |
| ExternalProd.NttQuery | src/external_prod.cpp:159-167 | Row i is query[i]'s two polynomials written out and taken to the NTT domain. |
| ExternalProd.ProductRows | src/external_prod.cpp:168-177 | Row i is the external product of the key GSW with query[i], written out, not transformed. |
| ExternalProd.QueryToGsw | src/external_prod.cpp:147-178 | 2*cl rows. Row i is the NTT row of query[i]. Row cl + i is the external product of the key GSW with query[i]. |
| ExternalProd.GswNtt | src/external_prod.cpp:15-33 | Both halves of every row go to the NTT domain, and the row count is kept. |
| PirParams.FirstDim | src/includes/pir.h:36 | `DBSize >> (ndim-1)` is the largest fd with fd * 2^(ndim-1) <= DBSize. |
| PirParams.Dims | src/includes/pir.h:46-49 | ndim dimensions: first_dim, then 2s. They multiply to first_dim * 2^(ndim-1). |
| PirParams.CheckAsWritten | src/includes/pir.h:37-73 | The three checks exactly as written, each error in both directions. The power-of-two test is on first_dim. `DBSize * epp` wraps in uint64_t. |
| PirParams.Check | src/includes/pir.h:37-73 | The corrected checks, with the power-of-two test on DBSize. Passing them implies first_dim is a power of two and first_dim * 2^(ndim-1) == DBSize, and that the as-written checks pass too. |
| PirParams.PowerOfTwoSplits | src/includes/pir.h:36-42 | A power of two shifted right without vanishing is a power of two that, shifted back, restores it. |
| PirParams.ModulusBits | src/includes/pir.h:77-81 | `bits` is the sum of the bit counts of all moduli but the last. |
| PirParams.BitCount | src/includes/pir.h:80 | `bit_count` is the least r with q < 2^r. |
| PirParams.CeilDiv | src/includes/pir.h:85-94 | `(bits + l - 1) / l` is the least r with bits <= l * r. |
| PirParams.Create | src/includes/pir.h:30-97 | Fails exactly when the corrected checks fail, with the first failing check's error. On success:<br>• the record holds dims, l and l_key, and base_log2 = ceil(bits/l) for each evaluator;<br>• dims[0] >= 128, the later dims are 2, and the dims multiply to DBSize;<br>• l * base_log2 covers the data moduli bits, for both evaluators. |
| PirParams.AsWrittenAcceptsNonPowerOfTwo | src/includes/pir.h:40-42 | DBSize = 257, ndim = 2 passes the checks as written. The dimensions [128, 2] cover 256 plaintexts, and the corrected check rejects this input. |
| Client.PlainIndex | src/client.cpp:50-52 | `entry_index / epp` is the plaintext p with p*epp <= entry_index < p*epp + epp. The same quotient is num_plaintexts of set_database (`Database.PlaintextCount`), so a trailing partial group is dropped. |
| Client.GetQueryIndexes | src/client.cpp:54-66 | The loop computes `QueryIndexesOf`: remaining size divided by each dimension, quotient taken, remainder carried. |
| Client.QueryIndexesExact | src/client.cpp:54-66 | When the dimensions multiply to the size, every coordinate is inside its dimension and the mixed-radix value of the coordinates is the index. |
| Client.RemainingCovers | src/client.cpp:60-61 | Each remaining size is at least 1 and covers the product of the dimensions still to come. |
| Client.AsWrittenIndexOutOfRange | src/client.cpp:54-66 | Under the as-written checks of the PirParams constructor, plaintext 256 of DBSize 257 gets first coordinate 128, one past the first dimension. |
| Client.CheckedIndexesInRange | src/client.cpp:54-66 | Under the corrected checks of the PirParams constructor, every plaintext below DBSize gets in-range coordinates that denote it. |
| Client.MsgSize | src/client.cpp:77 | msg_size = dims[0] + l*(ndim-1), at least dims[0]. |
| Client.BitsPerCiphertext | src/client.cpp:78-81 | The doubling loop gives the least power of two >= msg_size, and it is below 2*msg_size unless it is 1. |
| Client.MakePlainQuery | src/client.cpp:83-93 | N coefficients, all zero except the first-dimension index, which holds the inverse. |
| Client.PlainQuery | src/client.cpp:83-93 | The only non-zero coefficient is at the first-dimension index. |
| Client.PlainQueryScales | src/client.cpp:83-93 | If the stored value is the inverse of bits_per_ciphertext mod t, multiplying the query by bits_per_ciphertext mod t gives the unit vector at the first-dimension index. |
| Client.ModulusInverses | src/client.cpp:106-111 | `inv[k]` is `try_invert_uint_mod(bits, q_k)` for every k < K. |
| Client.GadgetCoefScales | src/client.cpp:129-132 | With inv[m] an inverse of bits_per_ciphertext mod q_m, the inserted coefficient times bits_per_ciphertext is the gadget power 2^(base_log2*(l-1-k)) mod q_m. So the expansion's factor bits_per_ciphertext gives the gadget back. |
| Client.InsertGadgets | src/client.cpp:117-138 | Polynomial 0 after the loop over dimensions 1..ndim-1: filled_cnt starts at dims[0] and advances by l, and only dimensions whose coordinate is 1 add their coefficients. |
| Client.InsertedSlot | src/client.cpp:122-133 | The word of dimension d, level k, block m holds its old value plus the gadget coefficient mod q_m when coordinate d is 1 and k < 5. Otherwise it holds its old value. |
| Client.InsertedOutside | src/client.cpp:117-138 | Words outside the later dimensions' slots keep their value, among them the whole first dimension of the query. |
| Client.InsertedReduced | src/client.cpp:131-132 | The first polynomial stays reduced. |
| Client.GenerateQuery | src/client.cpp:68-141 | The result is `QueryOf`: the encryption of the plain query with the gadget values inserted into its first polynomial. |
| Client.GaloisElements | src/client.cpp:182-200 | The elements are 1, then N/2^cf + 1 doubling (less one) up to N + 1, with 2^cf <= N. The first element after 1 is the minimum element `N / 2^cf + 1`, and the last is N + 1. |
| Client.GaloisLoop | src/client.cpp:193-196 | The loop from min_ele while i <= N + 1, with i := (i-1)*2 + 1, gives exactly that list. |
| Client.MinElement | src/client.cpp:193 | For N = 2^logN, min_ele = 2^(logN - cf) + 1. |
| Client.ReadEntry | src/client.cpp:224-241 | The buffer loop (take 8 bits, refill with the next coefficient shifted by data_offset) yields the es bytes of the little-endian bit stream from byte `first` on. |
| Client.GetEntryFromPlaintext | src/client.cpp:211-244 | The result is es bytes: the stream bytes from (entry_index mod epp) * es. |
| Client.ValueFromReplies | src/client.cpp:247-270 | Both directions of each case:<br>• an error exactly when either reply is shorter than the key; the `reserve` error exactly when reply1 is;<br>• if the key prefixes reply1, the value is reply1's rest;<br>• else, if it prefixes reply2, reply2's rest;<br>• else, empty. |
| Client.KeyedReplyFound | src/client.cpp:257-263 | A reply made of the key and a value yields that value, whichever of the two replies it is. |
| Database.PadEntry | src/server.cpp:248-257 | A non-empty entry of at most es bytes is extended with zeros to es bytes and keeps its prefix. Any other entry is kept. |
| Database.PadEntries | src/server.cpp:248-257 | The in-place loop leaves every entry padded. |
| Database.PaddedEntry | src/server.cpp:249-251 | A padded non-empty entry reads byte k as the original byte below its length and 0 after it. |
| Database.GroupBytesAt | src/server.cpp:309-314 | Byte j*es + k of the stream is byte k of entry first + j. |
| Database.PackPlaintext | src/server.cpp:284-330 | The plaintext is `PackedOf`, the N bpc-bit digits of the group's byte stream read as one little-endian number, including the last, partly filled coefficient. |
| Database.PackEntry | src/server.cpp:312-324 | Pushing the es bytes of entry j keeps the packing invariant: the coefficients written so far are the stream's digits, and `data_buffer` holds the data_offset bits after them. |
| Database.PushByte | src/server.cpp:314-323 | One byte extends the invariant by eight bits of the stream, and the buffer stays below 2^72, so the 128 bits never wrap. |
| Database.AllDigitsWritten | src/server.cpp:326-330 | Once the written coefficients cover the stream, the plaintext is all of its digits. |
| Database.StreamBit | src/server.cpp:314-328 | Bit b of the stream is bit b mod bpc of coefficient b / bpc. |
| Database.PackedNumber | src/server.cpp:305-330 | When the stream fits the plaintext, the coefficients read back as the stream's number. |
| Database.ReadBack | src/server.cpp:305-330 | Reading es bytes, as get_entry_from_plaintext does, from byte `first` out of the packed plaintext gives exactly those bytes of the stream. |
| Database.EntryRoundTrip | src/server.cpp:283-332 | The client's arithmetic (get_database_plain_index and get_entry_from_plaintext) reads entry e from the plaintext set_database packed: plaintext e / epp, bit offset (e mod epp)*es*8. The read stays inside the plaintext and gives the first es bytes of entry e. |
| Server.PackSlots | src/server.cpp:283-339 | One slot per whole group, absent when sum_size is zero, then absent slots up to DBSize. |
| Server.PackSlot | src/server.cpp:284-331 | Plaintext i is absent when sum_size == 0, else group i packed. |
| Server.DatabaseShape | src/server.cpp:242-345 | db_ after set_database:<br>• it has at least DBSize slots, and exactly DBSize when the groups fit;<br>• slots after the packed groups are absent;<br>• a packed slot is present exactly when sum_size != 0;<br>• every present slot is reduced. |
| Server.EntryStored | src/server.cpp:242-345 | Entry e sits in slot e / epp, the slot get_database_plain_index computes, as that group's packed plaintext in the NTT domain, and reads back as its first es bytes. |
| Server.NttSlots | src/server.cpp:347-353 | The slot count is kept; every present plaintext is transformed and absent ones stay absent. |
| Server.PirServer.constructor | src/server.cpp:12-14 | Keeps the parameters; the database and the key map are empty. |
| Server.PirServer.SetClientGswKey | src/server.cpp:174-176 | The key map is updated at client_id, and the database is unchanged. |
| Server.PirServer.PreprocessNtt | src/server.cpp:347-353 | db_ becomes `NttSlots(old db_)`, and the keys are unchanged. |
| Server.PirServer.SetDatabase | src/server.cpp:242-345 | The new_db argument is padded in place. db_ is `DatabaseOf`: packed, padded to DBSize with absent slots, and NTT-transformed. The keys are unchanged. |
| Server.NttPrefix | src/server.cpp:75-77 | The first dims[0] selection ciphertexts are transformed in place, and the others are kept. |
| Server.AccumulateRow | src/server.cpp:82-91 | Row i adds the slot's plaintext times both selection polynomials into the 128-bit buffers. An absent slot is skipped. |
| Server.AbsentRow | src/server.cpp:85 | Skipping an absent slot is adding a zero row. |
| Server.AccumulateColumn | src/server.cpp:79-108 | Column col: accumulate every row, reduce each word once, inverse NTT. |
| Server.FirstDimIsModularDot | src/server.cpp:79-105 | With reduced inputs and dims[0] * q^2 <= 2^128, every word before the inverse NTT is the modular dot product of the selection with the column. It equals reducing after every product. |
| Server.PirServer.EvaluateFirstDimDelayedMod | src/server.cpp:63-111 | The selection vector's first dims[0] entries go to the NTT domain in place. There is one result per column of DBSize/dims[0], each `FirstDimColumn`. |
| Server.SubtractMultiply | src/server.cpp:118-122 | For i < block, result[i] becomes the external product of the GSW with result[i] - result[i+block]. The other entries keep their value, and the products are returned in order. |
| Server.MultiplyPair | src/server.cpp:119-121 | One pair, in place; nothing else in the array changes. |
| Server.AddHalves | src/server.cpp:124-127 | Every product is transformed back and added to result[j+block]. That gives `GswProductOf`. |
| Server.PirServer.EvaluateGswProduct | src/server.cpp:113-129 | The returned vector is `GswProductOf` of the old vector, and the in-place changes to `result` are as above. |
| Server.GswSelects | src/server.cpp:118-127 | With no noise, if the GSW passes x - y through for bit 1 and gives zero for bit 0, then `b*(x - y) + y` is x for 1 and y for 0. |
| Server.GswProductSelectsHalf | src/server.cpp:113-129 | A selector for b keeps the first half of the vector for 1 and the second half for 0. |
| Server.ExpansionFactor | src/server.cpp:141-145 | The least e with 2^e >= exp. |
| Server.ExpandPair | src/server.cpp:155-163 | For slot b: cipher0 is its Galois image. Slot b gains cipher0, and slot b + c becomes shift(slot b, -c) - shift(cipher0, -c). |
| Server.ExpandRoundInPlace | src/server.cpp:154-164 | One round with c = 2^a: slots b and b + c for b < c as above; slots from 2c on are untouched. |
| Server.ExpandRounds | src/server.cpp:150-165 | After all rounds cipher_vec is `ExpandedAfter` e rounds. Round a doubles the slots in use from 2^a to 2^(a+1). |
| Server.PirServer.ExpandQuery | src/server.cpp:131-168 | 2^e slots with e the least such that 2^e >= msg_size, starting from the query in slot 0, after e rounds. |
| Server.RoundKeysGenerated | src/server.cpp:150-157 | Every Galois element N/2^a + 1 that a round of expand_query applies is one `create_galois_keys` generated a key for. |
| Server.OtherDims | src/server.cpp:65 | size_of_other_dims = DBSize / dims[0] = 2^(ndim-1). |
| Server.PirServer.DimensionStep | src/server.cpp:194-216 | One dimension: the l slots from ptr become the selection GSW of that dimension through query_to_gsw with the client key, and halve the results. ptr advances by l. |
| Server.PirServer.FoldDimensions | src/server.cpp:191-217 | After dimensions 1..ndim-1 the result is the first-dimension results folded by every dimension's GSW, in order. |
| Server.PirServer.MakeQuery | src/server.cpp:178-222 | The reply is `ReplyOf`: expand, first dimension, fold by every later dimension, then switch the single ciphertext left to the next modulus level. |
| Server.FoldSelects | src/server.cpp:194-217 | If every later dimension's GSW acts as a bit, then after i of them the vector is the run of first-dimension results from the offset those bits select. |
| Server.FoldedLast | src/server.cpp:194-217 | After all k GSWs one result is left: the one at that offset, which is below 2^k. |
| Server.ReplySelects | src/server.cpp:178-222 | With selecting GSWs, make_query answers with exactly one first-dimension result, the one the bits select, switched to the next modulus level. |
| Server.PaddedPackable | src/server.cpp:248-312 | Padding leaves every non-empty entry at least entry_size long, so the packing loop can read entry_size bytes of each. |
| Rns.SubAddCancel | src/server.cpp:119-126 | (x - y) + y == x for a reduced x, word by word modulo each block's modulus. |

## Left out

- SEAL is not modelled. Encryption, decryption, NTT and inverse NTT, RNS compose and decompose, Galois automorphisms and modulus switching are fields of the datatype `Seal`, with only the shape contract the core relies on. The CRT property of compose is an explicit premise (`ComposeIsCrt`) where it is used. SEAL is a library outside the core.
- `try_invert_uint_mod` is the parameter `invert`. Its inverse property is a premise of `Client.GadgetCoefScales` and `Client.PlainQueryScales`; `Client.PlainQuery` stores whatever value it is given.
- Noise is not modelled. That an external product with GSW(b) acts as the bit b is the hypothesis `Selector` of `Server.FoldSelects` and `Server.ReplySelects`, not a theorem. Decryption correctness would need a noise bound, which is outside the scope of this model.
- Galois keys per client (`set_client_galois_key`) are folded into `s.galois`. The key map is not a field of `PirServer`.
- The number of entries per plaintext, the bits per coefficient and the SEAL parameters are computed in src/pir.cpp, which is not part of this model. They are inputs, and the capacity `epp * es * 8 <= N * bpc` is a precondition where the packing needs it.
- `utils::multiply_poly_acum` lives in src/utils.h, which is not part of this model. Its semantics is taken as `buf[i] += a[i] * b[i]` in `__uint128_t`.
- Server.PirServer.SetDatabase: requires that every entry of a whole group is non-empty, and that bits_per_coeff is at most 64. The code reads entry_size bytes of each entry without a bounds check, so an empty entry is undefined behaviour there.
- Server.PirServer.MakeQuery: requires a configured server (`Serving`): the PirParams invariants on dims_, digits that fit the 128-bit accumulator, a client key with 2 l_key rows, and a database of at least DBSize reduced slots. The code does not check these; it assumes them.
- Client.GenerateQuery: requires dims that multiply to DBSize, the entry's plaintext below DBSize, msg_size <= N and base_log2 < 128. The code assumes these and does not check them. Under the as-written parameter checks the dims need not multiply to DBSize (see Findings). The uint64 products in the query are unbounded integers here.
- Client.InsertGadgets: the `k < 5` guard of src/client.cpp:129 is modelled as written. For l > 5 the levels from 5 on get no gadget value.
- Client.GaloisElements: requires 2^compression_factor <= N, as the code's comment demands. The elements are `nat`, not `uint32_t`; for N below 2^31 they agree. `std::log2` and `pow` on `double` are replaced by their exact integer forms `FloorLog2` and `Pow2`.
- Server.ExpansionFactor: the `int` shift `1 << expansion_factor` and `(size_t)pow(2, e)` are unbounded here. For msg_size below 2^30 they agree.
- Client.ReadEntry: reads only plaintexts whose coefficients are all below 2^bpc. That is what the correct decryption of a packed plaintext supplies, since packing puts bpc bits in each coefficient. A coefficient is only known to be below t, and t can exceed 2^bpc. For a coefficient at or above 2^bpc the code ORs its high bits into the bits of the next coefficient. The model does not say what bytes result then.
- Client.GetEntryFromPlaintext: the same restriction to coefficients below 2^bpc, for the same reason.
- Database.PackPlaintext: `int sum_size` is `nat` here, so it does not wrap.
- PirParams.CeilDiv: `int bits` is unbounded.
- PirParams.Create: the choice of coefficient moduli (`BFVDefault` or `Create(8192, {60,60,60})`) is an input, not a constant.
- The debug and timing prints are not modelled. Neither is the decrypt-and-print in `encrypt_plain_to_gsw` (src/external_prod.cpp:223-229), which does not affect the output.
- `evaluate_first_dim`, `make_query_delayed_mod` and `make_query_regular_mod` are alternative server paths not used by `make_query`. `gen_data`, `RGSW_one`, `uint128_to_string`, `negate_poly_inplace`, the cuckoo-hashing helpers, `decrypt_result` and client key generation are also not modelled, because they are outside the core.
- `gsw_ntt_negacyclic_harvey` and `cyphertext_inverse_ntt` are modelled only through the `Seal` transforms (`ExternalProd.GswNtt`, `Rns.InvNttCt`). Exceptions other than those listed are not modelled.

## Findings

| source | as written | input that shows it | evidently intended | confidence | as-written member | corrected member |
|---|---|---|---|---|---|---|
| src/includes/pir.h:40-42 | The power-of-two test is applied to first_dim = DBSize >> (ndim-1), although the message says the database size must be a power of two. | DBSize = 257, ndim = 2: first_dim = 128 passes, and dims = [128, 2] cover 256 plaintexts. Plaintext 256 gets first coordinate 128, outside the first dimension. | Test DBSize itself, so that dims multiply to exactly DBSize and every plaintext has in-range coordinates. | not executed | PirParams.CheckAsWritten, PirParams.AsWrittenAcceptsNonPowerOfTwo, Client.AsWrittenIndexOutOfRange | PirParams.Check, PirParams.Create, Client.CheckedIndexesInRange |
