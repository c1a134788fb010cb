/** The plaintext layout of the database, from PirServer::set_database in
    src/server.cpp: entries padded to entry_size bytes, then packed
    entries_per_plaintext to a plaintext as one little-endian bit stream
    cut into bits_per_coeff-bit coefficients. */
module Database {
  import opened Arith
  import opened Digits
  import Client

  // ---------------------------------------------------------------------
  // Padding

  /** entry.resize(entry_size, 0) for a non-empty entry of at most
      entry_size bytes; an empty or a longer entry is kept as it is (the
      invalid_argument for a longer entry is constructed, never thrown). */
  function PadEntry(e: seq<Byte>, es: nat): (r: seq<Byte>)
    ensures 0 < |e| <= es ==> |r| == es && r[..|e|] == e && forall k :: |e| <= k < es ==> r[k] == 0
    ensures !(0 < |e| <= es) ==> r == e
  {
    if 0 < |e| <= es then e + seq(es - |e|, _ => 0) else e
  }

  function PadAll(db: seq<seq<Byte>>, es: nat): (r: seq<seq<Byte>>)
    ensures |r| == |db|
  {
    seq(|db|, j requires 0 <= j < |db| => PadEntry(db[j], es))
  }

  /** After padding, entry j reads back as the entry itself up to its
      length, then zeros, whenever it was non-empty and not too long. */
  lemma PaddedEntry(db: seq<seq<Byte>>, es: nat, j: nat)
    requires j < |db| && 0 < |db[j]| <= es
    ensures |PadAll(db, es)[j]| == es
    ensures forall k :: 0 <= k < es ==> PadAll(db, es)[j][k] == if k < |db[j]| then db[j][k] else 0
  {
    var e := db[j];
    var r := PadEntry(e, es);
    forall k | 0 <= k < |e|
      ensures r[k] == e[k]
    {
      assert r[..|e|][k] == r[k];
    }
  }

  /** The loop over new_db that pads the entries in place. */
  method PadEntries(newDb: array<seq<Byte>>, es: nat)
    modifies newDb
    ensures newDb[..] == PadAll(old(newDb[..]), es)
  {
    var j := 0;
    while j < newDb.Length
      invariant 0 <= j <= newDb.Length
      invariant forall j' :: 0 <= j' < newDb.Length ==>
        newDb[j'] == if j' < j then PadEntry(old(newDb[j']), es) else old(newDb[j'])
    {
      var entry := newDb[j];
      if |entry| != 0 && |entry| <= es {
        entry := entry + seq(es - |entry|, _ => 0);
      }
      newDb[j] := entry;
      j := j + 1;
    }
  }

  // ---------------------------------------------------------------------
  // The byte stream of one plaintext

  /** The first es bytes of the cnt entries from first on, one after the
      other: the bytes the loops over j and k of set_database read. */
  function GroupBytes(db: seq<seq<Byte>>, first: nat, cnt: nat, es: nat): (s: seq<Byte>)
    requires first + cnt <= |db| && forall j :: first <= j < first + cnt ==> |db[j]| >= es
    ensures |s| == cnt * es
    decreases cnt
  {
    if cnt == 0 then [] else GroupBytes(db, first, cnt - 1, es) + db[first + cnt - 1][..es]
  }

  /** Byte j*es + k of the stream is byte k of entry first + j. */
  lemma {:induction false} GroupBytesAt(db: seq<seq<Byte>>, first: nat, cnt: nat, es: nat, j: nat, k: nat)
    requires first + cnt <= |db| && forall j' :: first <= j' < first + cnt ==> |db[j']| >= es
    requires j < cnt && k < es
    ensures j * es + k < cnt * es
    ensures GroupBytes(db, first, cnt, es)[j * es + k] == db[first + j][k]
    decreases cnt
  {
    var prev := GroupBytes(db, first, cnt - 1, es);
    MulSuccLeft(cnt - 1, es);
    if j < cnt - 1 {
      GroupBytesAt(db, first, cnt - 1, es, j, k);
    } else {
      assert GroupBytes(db, first, cnt, es)[j * es + k] == db[first + cnt - 1][..es][k];
    }
  }

  lemma BytesBelow(s: seq<Byte>)
    ensures AllBelow(s, Pow2(8))
  {
    assert Pow2(8) == 256;
  }

  /** The plaintext of a byte stream: coefficient c holds bits c*bpc to
      c*bpc + bpc - 1 of the stream read as one little-endian number. */
  function PackedOf(bytes: seq<Byte>, bpc: nat, n: nat): (pt: seq<nat>)
    ensures |pt| == n && AllBelow(pt, Pow2(bpc))
  {
    DigitsOfBelow(LeNum(bytes, 8), n, bpc);
    DigitsOf(LeNum(bytes, 8), n, bpc)
  }

  /** num_plaintexts = new_db.size() / epp: the whole groups of epp
      entries, the same quotient as the plaintext index of an entry (so a
      trailing partial group is dropped). */
  function PlaintextCount(len: nat, epp: nat): nat
    requires epp >= 1
  {
    Client.PlainIndex(len, epp)
  }

  /** Every entry of a whole group is long enough to be read. */
  predicate Packable(db: seq<seq<Byte>>, epp: nat, es: nat)
    requires epp >= 1
  {
    forall j :: 0 <= j < PlaintextCount(|db|, epp) * epp ==> |db[j]| >= es
  }

  lemma GroupInRange(db: seq<seq<Byte>>, epp: nat, i: nat)
    requires epp >= 1 && i < PlaintextCount(|db|, epp)
    ensures i * epp + epp <= PlaintextCount(|db|, epp) * epp <= |db|
  {
    MulSuccLeft(i, epp);
    MulMono(i + 1, PlaintextCount(|db|, epp), epp);
  }

  /** Plaintext i of the database: entries i*epp to i*epp + epp - 1. */
  function PlaintextOf(db: seq<seq<Byte>>, epp: nat, es: nat, bpc: nat, n: nat, i: nat): (pt: seq<nat>)
    requires epp >= 1 && Packable(db, epp, es) && i < PlaintextCount(|db|, epp)
    ensures |pt| == n
  {
    GroupInRange(db, epp, i);
    PackedOf(GroupBytes(db, i * epp, epp, es), bpc, n)
  }

  // ---------------------------------------------------------------------
  // Packing one plaintext

  /** The state of the packing loop after pos8 bits of the stream x: the
      first index coefficients are written, data_buffer holds the
      data_offset bits after them. */
  ghost predicate Packing(pt: seq<nat>, x: nat, bpc: nat, index: nat, iw: nat, buf: nat, off: nat, pos8: nat)
  {
    && iw == index * bpc && off + iw == pos8
    && buf == Low(Shr(x, iw), off)
    && index <= |pt|
    && forall c :: 0 <= c < |pt| ==> pt[c] == if c < index then Digit(x, c, bpc) else 0
  }

  /** Taking bpc bits off a buffer of at least bpc bits: the bits are the
      next coefficient, and the buffer keeps the bits after them. */
  lemma TakeBits(x: nat, iw: nat, off: nat, bpc: nat, buf: nat)
    requires off >= bpc && buf == Low(Shr(x, iw), off)
    ensures And(buf, Pow2(bpc) - 1) == Low(Shr(x, iw), bpc)
    ensures Shr(buf, bpc) == Low(Shr(x, iw + bpc), off - bpc)
  {
    AndLowMask(buf, bpc);
    LowLow(Shr(x, iw), bpc, off);
    ShrLowComm(Shr(x, iw), bpc, off - bpc);
    assert bpc + (off - bpc) == off;
    ShrAdd(x, iw, bpc);
  }

  /** Adding the next byte above the off bits held extends the buffer by
      eight bits of the stream. */
  lemma AddByteBits(x: nat, iw: nat, off: nat, buf: nat, byte: nat)
    requires buf == Low(Shr(x, iw), off) && byte == Low(Shr(x, iw + off), 8)
    ensures buf + Shl(byte, off) == Low(Shr(x, iw), off + 8)
  {
    LowSplit(Shr(x, iw), off, 8);
    ShrAdd(x, iw, off);
    var p := Pow2(off);
    assert byte * p == p * byte;
  }

  /** A coefficient that starts before the end of the stream fits the
      plaintext. */
  lemma IndexInRange(n: nat, bpc: nat, index: nat, iw: nat, bound: nat)
    requires iw == index * bpc && iw < bound && bound <= n * bpc
    ensures index < n
  {
    if index >= n {
      MulMono(n, index, bpc);
    }
  }

  /** Bits at or above the length of the stream are zero. */
  lemma HighDigitZero(x: nat, c: nat, bpc: nat, bound: nat)
    requires x < Pow2(bound) && bound <= c * bpc
    ensures Digit(x, c, bpc) == 0
  {
    Pow2Mono(bound, c * bpc);
    LowSmall(x, c * bpc);
    assert Low(0, bpc) == 0 by {
      LowSmall(0, bpc);
    }
  }

  /** The last, partly filled coefficient: the buffer holds all the bits
      that are left, so masking it gives the whole coefficient. */
  lemma LastBits(x: nat, iw: nat, off: nat, bpc: nat, buf: nat)
    requires x < Pow2(iw + off) && 0 < off < bpc && buf == Low(Shr(x, iw), off)
    ensures And(buf, Pow2(bpc) - 1) == Low(Shr(x, iw), bpc)
  {
    ShrLow(x, iw);
    Pow2Add(iw, off);
    MulBelow(x, Low(x, iw), Pow2(iw), Shr(x, iw), Pow2(off));
    LowSmall(Shr(x, iw), off);
    Pow2StrictMono(off, bpc);
    LowSmall(Shr(x, iw), bpc);
    AndLowMask(buf, bpc);
    LowSmall(buf, bpc);
  }

  /** One byte of the inner loop of set_database: data_buffer +=
      byte << data_offset, then as long as data_offset >= bpc, the low bpc
      bits become the next coefficient. The buffer stays below 2^72, so its
      128 bits never wrap. */
  method PushByte(plaintext: array<nat>, byte: Byte, bpc: nat, index: nat, buf: nat, off: nat,
                  ghost x: nat, ghost iw: nat, ghost pos8: nat, ghost total8: nat)
      returns (index': nat, buf': nat, off': nat, ghost iw': nat)
    requires bpc >= 1 && off < bpc
    requires Packing(plaintext[..], x, bpc, index, iw, buf, off, pos8)
    requires byte == Low(Shr(x, pos8), 8)
    requires pos8 + 8 <= total8 <= plaintext.Length * bpc
    modifies plaintext
    ensures off' < bpc && Packing(plaintext[..], x, bpc, index', iw', buf', off', pos8 + 8)
  {
    AddByteBits(x, iw, off, buf, byte);
    buf' := buf + Shl(byte, off);
    off' := off + 8;
    index', iw' := index, iw;
    var mask := Pow2(bpc) - 1;
    while off' >= bpc
      invariant Packing(plaintext[..], x, bpc, index', iw', buf', off', pos8 + 8)
      decreases off'
    {
      IndexInRange(plaintext.Length, bpc, index', iw', total8);
      TakeBits(x, iw', off', bpc, buf');
      plaintext[index'] := And(buf', mask);
      MulSuccLeft(index', bpc);
      index' := index' + 1;
      buf' := Shr(buf', bpc);
      off' := off' - bpc;
      iw' := iw' + bpc;
    }
  }

  /** The packing of plaintext entries first .. first + epp - 1 in
      set_database: a fresh plaintext of n zero coefficients, filled bpc
      bits at a time from the entries' bytes, the leftover bits in one more
      coefficient. */
  method PackPlaintext(db: seq<seq<Byte>>, first: nat, epp: nat, es: nat, bpc: nat, n: nat) returns (pt: seq<nat>)
    requires 1 <= bpc <= 64 && first + epp <= |db|
    requires forall j :: first <= j < first + epp ==> |db[j]| >= es
    requires epp * es * 8 <= n * bpc
    ensures pt == PackedOf(GroupBytes(db, first, epp, es), bpc, n)
  {
    ghost var stream := GroupBytes(db, first, epp, es);
    ghost var x := LeNum(stream, 8);
    ghost var total8 := epp * es * 8;
    BytesBelow(stream);
    LeNumBound(stream, 8);
    assert x < Pow2(total8) by { assert 8 * |stream| == total8; }
    var plaintext := new nat[n](_ => 0);
    var index: nat, dataBuffer: nat, dataOffset: nat := 0, 0, 0;
    ghost var pos: nat, iw: nat := 0, 0;
    var j := first;
    while j < first + epp
      invariant first <= j <= first + epp && pos == (j - first) * es
      invariant dataOffset < bpc
      invariant Packing(plaintext[..], x, bpc, index, iw, dataBuffer, dataOffset, pos * 8)
    {
      index, dataBuffer, dataOffset, iw :=
        PackEntry(plaintext, db, first, epp, es, bpc, j, index, dataBuffer, dataOffset, x, iw, pos);
      pos := pos + es;
      MulSuccLeft(j - first, es);
      j := j + 1;
    }
    assert pos == epp * es;
    if dataOffset > 0 {
      IndexInRange(n, bpc, index, iw, total8);
      LastBits(x, iw, dataOffset, bpc, dataBuffer);
      plaintext[index] := And(dataBuffer, Pow2(bpc) - 1);
      MulSuccLeft(index, bpc);
      index := index + 1;
      iw := iw + bpc;
    }
    pt := plaintext[..];
    assert iw == index * bpc && total8 <= iw;
    AllDigitsWritten(pt, x, bpc, index, total8);
  }

  /** Once the coefficients from index on cover no bit of x, the plaintext
      holds every digit of x. */
  lemma AllDigitsWritten(pt: seq<nat>, x: nat, bpc: nat, index: nat, bound: nat)
    requires x < Pow2(bound) && bound <= index * bpc
    requires forall c :: 0 <= c < |pt| ==> pt[c] == if c < index then Digit(x, c, bpc) else 0
    ensures pt == DigitsOf(x, |pt|, bpc)
  {
    forall c | 0 <= c < |pt|
      ensures pt[c] == Digit(x, c, bpc)
    {
      if c >= index {
        MulMono(index, c, bpc);
        HighDigitZero(x, c, bpc, bound);
      }
    }
  }

  /** The inner loop of the packing: the es bytes of entry j pushed in
      order, after the bytes of the entries before it. */
  method PackEntry(plaintext: array<nat>, db: seq<seq<Byte>>, first: nat, epp: nat, es: nat, bpc: nat, j: nat,
                   index: nat, buf: nat, off: nat, ghost x: nat, ghost iw: nat, ghost pos: nat)
      returns (index': nat, buf': nat, off': nat, ghost iw': nat)
    requires 1 <= bpc && first <= j < first + epp <= |db|
    requires forall j' :: first <= j' < first + epp ==> |db[j']| >= es
    requires x == LeNum(GroupBytes(db, first, epp, es), 8)
    requires epp * es * 8 <= plaintext.Length * bpc
    requires pos == (j - first) * es && off < bpc
    requires Packing(plaintext[..], x, bpc, index, iw, buf, off, pos * 8)
    modifies plaintext
    ensures off' < bpc && Packing(plaintext[..], x, bpc, index', iw', buf', off', (pos + es) * 8)
  {
    ghost var stream := GroupBytes(db, first, epp, es);
    BytesBelow(stream);
    index', buf', off', iw' := index, buf, off, iw;
    var k := 0;
    while k < es
      invariant 0 <= k <= es && off' < bpc
      invariant Packing(plaintext[..], x, bpc, index', iw', buf', off', (pos + k) * 8)
    {
      GroupBytesAt(db, first, epp, es, j - first, k);
      LeNumDigit(stream, 8, pos + k);
      index', buf', off', iw' :=
        PushByte(plaintext, db[j][k], bpc, index', buf', off', x, iw', (pos + k) * 8, epp * es * 8);
      k := k + 1;
    }
  }

  // ---------------------------------------------------------------------
  // What the packing promises

  /** Bit b of the byte stream is bit b mod bpc of coefficient b / bpc. */
  lemma StreamBit(bytes: seq<Byte>, bpc: nat, n: nat, b: nat)
    requires bpc >= 1 && b < n * bpc
    ensures Quot(b, bpc) < n
    ensures Low(Shr(PackedOf(bytes, bpc, n)[Quot(b, bpc)], Rem(b, bpc)), 1) == Low(Shr(LeNum(bytes, 8), b), 1)
  {
    QuotRem(b, bpc);
    var c, r := Quot(b, bpc), Rem(b, bpc);
    var x, cb := LeNum(bytes, 8), c * bpc;
    IndexInRange(n, bpc, c, cb, b + 1);
    ShrLowComm(Shr(x, cb), r, bpc - r);
    assert r + (bpc - r) == bpc;
    ShrAdd(x, cb, r);
    LowLow(Shr(x, b), 1, bpc - r);
  }

  /** When the stream fits the plaintext, the coefficients read back as the
      stream's number. */
  lemma PackedNumber(bytes: seq<Byte>, bpc: nat, n: nat)
    requires |bytes| * 8 <= n * bpc
    ensures LeNum(PackedOf(bytes, bpc, n), bpc) == LeNum(bytes, 8)
  {
    var x := LeNum(bytes, 8);
    BytesBelow(bytes);
    LeNumBound(bytes, 8);
    Pow2Mono(8 * |bytes|, n * bpc);
    LeNumDigitsOf(x, n, bpc);
  }

  /** Reading es bytes from byte first on out of the packed plaintext gives
      those bytes of the stream. */
  lemma ReadBack(bytes: seq<Byte>, bpc: nat, n: nat, first: nat, es: nat)
    requires |bytes| * 8 <= n * bpc && first + es <= |bytes|
    ensures Client.EntryOf(PackedOf(bytes, bpc, n), bpc, first, es) == bytes[first..first + es]
  {
    PackedNumber(bytes, bpc, n);
    BytesBelow(bytes);
    var got := Client.EntryOf(PackedOf(bytes, bpc, n), bpc, first, es);
    forall k | 0 <= k < es
      ensures got[k] == bytes[first + k]
    {
      LeNumDigit(bytes, 8, first + k);
    }
  }

  /** Entry r of a group is bytes r*es to r*es + es - 1 of its stream. */
  lemma GroupEntry(db: seq<seq<Byte>>, first: nat, cnt: nat, es: nat, r: nat)
    requires first + cnt <= |db| && forall j :: first <= j < first + cnt ==> |db[j]| >= es
    requires r < cnt
    ensures r * es + es <= cnt * es
    ensures GroupBytes(db, first, cnt, es)[r * es..r * es + es] == db[first + r][..es]
  {
    MulSuccLeft(r, es);
    MulMono(r + 1, cnt, es);
    var piece := GroupBytes(db, first, cnt, es)[r * es..r * es + es];
    forall k | 0 <= k < es
      ensures piece[k] == db[first + r][k]
    {
      GroupBytesAt(db, first, cnt, es, r, k);
    }
  }

  /** Entry r of plaintext i, read back: the read stays inside the
      plaintext and gives the entry's first es bytes. */
  lemma RoundTripAt(db: seq<seq<Byte>>, epp: nat, es: nat, bpc: nat, n: nat, i: nat, r: nat, e: nat)
    requires epp >= 1 && bpc >= 1 && Packable(db, epp, es) && epp * es * 8 <= n * bpc
    requires i < PlaintextCount(|db|, epp) && r < epp && e == i * epp + r && e < PlaintextCount(|db|, epp) * epp
    ensures (r * es + es) * 8 <= n * bpc
    ensures Client.EntryOf(PlaintextOf(db, epp, es, bpc, n, i), bpc, r * es, es) == db[e][..es]
  {
    GroupInRange(db, epp, i);
    GroupEntry(db, i * epp, epp, es, r);
    ReadBack(GroupBytes(db, i * epp, epp, es), bpc, n, r * es, es);
  }

  /** The round trip with the client: entry e, read back with
      get_entry_from_plaintext's arithmetic (plaintext e / epp, bit offset
      (e mod epp) * es * 8) from the plaintext set_database packed, is the
      first es bytes of entry e, and the read stays inside the plaintext. */
  lemma EntryRoundTrip(db: seq<seq<Byte>>, epp: nat, es: nat, bpc: nat, n: nat, e: nat)
    requires epp >= 1 && bpc >= 1 && Packable(db, epp, es) && epp * es * 8 <= n * bpc
    requires e < PlaintextCount(|db|, epp) * epp
    ensures Client.PlainIndex(e, epp) < PlaintextCount(|db|, epp)
    ensures (Rem(e, epp) * es + es) * 8 <= n * bpc
    ensures Client.EntryOf(PlaintextOf(db, epp, es, bpc, n, Client.PlainIndex(e, epp)), bpc, Rem(e, epp) * es, es)
         == db[e][..es]
  {
    QuotRem(e, epp);
    var i, r := Client.PlainIndex(e, epp), Rem(e, epp);
    if i >= PlaintextCount(|db|, epp) {
      MulMono(PlaintextCount(|db|, epp), i, epp);
    }
    RoundTripAt(db, epp, es, bpc, n, i, r, e);
  }
}
