/**
  The Thread Control Structure: the 4096-byte page that defines one entry
  point into an enclave.
*/
module Tcs {
  import opened Bytes
  import opened Bits
  import opened Results
  import opened Layout

  /** Bit 0 of the TCS flags: debugging is allowed on this thread. */
  const DBGOPTIN: nat := 0
  const TCS_FLAGS_ALL: seq<bool> := Word(64, {DBGOPTIN})

  type TcsFlags = f: seq<bool> | Within(f, TCS_FLAGS_ALL) witness Word(64, {})

  datatype Tcs = Tcs(
    state: u64,
    flags: TcsFlags,
    ossa: u64,
    cssa: u32,
    nssa: u32,
    oentry: u64,
    aep: u64,
    ofsbasgx: u64,
    ogsbasgx: u64,
    fslimit: u32,
    gslimit: u32,
    padding: seq<byte>)

  const PADDING_SIZE: nat := 503 * 8

  /** The field sizes of the record, in declaration order. */
  const TCS_SIZES: seq<nat> := [8, 8, 8, 4, 4, 8, 8, 8, 8, 4, 4, PADDING_SIZE]

  const U32_MAX: u32 := 0xFFFF_FFFF

  /** The record is well formed when its padding has the declared length. */
  predicate Valid(t: Tcs) {
    |t.padding| == PADDING_SIZE
  }

  /**
    `Tcs::new(entry, ossa, nssa)`: a thread entering at offset `entry`,
    with `nssa` SSA frames at offset `ossa`. The offsets are `usize`,
    modelled as 64-bit.
  */
  function New(entry: u64, ossa: u64, nssa: u32): (r: Tcs)
    ensures Valid(r)
    ensures r.oentry == entry && r.ossa == ossa && r.nssa == nssa
    ensures r.state == 0 && r.cssa == 0 && r.aep == 0 && r.ofsbasgx == 0 && r.ogsbasgx == 0
    ensures Value(r.flags) == 0
    ensures r.fslimit == U32_MAX && r.gslimit == U32_MAX
    ensures AllZero(r.padding)
  {
    ValueZero(64);
    Tcs(0, Word(64, {}), ossa, 0, nssa, entry, 0, 0, 0, U32_MAX, U32_MAX, Zeros(PADDING_SIZE))
  }

  /** The field images of a TCS, in layout order. */
  function TcsFields(t: Tcs): (r: seq<seq<byte>>)
    requires Valid(t)
    ensures Shaped(r, TCS_SIZES)
  {
    [LE64(t.state), WordBytes(t.flags, 8), LE64(t.ossa), LE32(t.cssa), LE32(t.nssa),
     LE64(t.oentry), LE64(t.aep), LE64(t.ofsbasgx), LE64(t.ogsbasgx),
     LE32(t.fslimit), LE32(t.gslimit), t.padding]
  }

  /** The 4096-byte image of a TCS page. */
  function TcsBytes(t: Tcs): (r: seq<byte>)
    requires Valid(t)
    ensures |r| == 4096
  {
    ConcatLength(TcsFields(t), TCS_SIZES);
    TcsLayout();
    Concat(TcsFields(t))
  }

  /** The TCS a 4096-byte image holds, if its flag word holds declared flags only. */
  function TcsOf(b: seq<byte>): (r: Option<Tcs>)
    requires |b| == 4096
    ensures r.Some? ==> Valid(r.value)
  {
    TcsLayout();
    ConcatSplit(b, TCS_SIZES);
    var f := Split(b, TCS_SIZES);
    var flags := WordOf(f[1]);
    if Within(flags, TCS_FLAGS_ALL) then
      Some(Tcs(U64(f[0]), flags, U64(f[2]), U32(f[3]), U32(f[4]), U64(f[5]), U64(f[6]),
               U64(f[7]), U64(f[8]), U32(f[9]), U32(f[10]), f[11]))
    else None
  }

  /** The record is 4096 bytes; the fields start at 0, 8, 16, 24, 28, 32, 40, 48, 56, 64, 68 and 72. */
  lemma TcsLayout()
    ensures Sum(TCS_SIZES) == 4096
    ensures Offsets(TCS_SIZES) == [0, 8, 16, 24, 28, 32, 40, 48, 56, 64, 68, 72, 4096]
  {
    var s := TCS_SIZES;
    OffsetSteps(s);
    assert Offset(s, 1) == 8;
    assert Offset(s, 2) == 16;
    assert Offset(s, 3) == 24;
    assert Offset(s, 4) == 28;
    assert Offset(s, 5) == 32;
    assert Offset(s, 6) == 40;
    assert Offset(s, 7) == 48;
    assert Offset(s, 8) == 56;
    assert Offset(s, 9) == 64;
    assert Offset(s, 10) == 68;
    assert Offset(s, 11) == 72;
    assert Offset(s, 12) == 4096;
    assert s[..12] == s;
    forall i | 0 <= i <= 12
      ensures Offsets(s)[i] == Offset(s, i)
    {
      OffsetsAgree(s, i);
    }
  }

  /** Decoding the image of a TCS gives the TCS back, and every decodable image is one. */
  lemma TcsRoundTrip(t: Tcs, b: seq<byte>)
    requires Valid(t) && |b| == 4096
    ensures TcsOf(TcsBytes(t)) == Some(t)
    ensures TcsOf(b).Some? ==> TcsBytes(TcsOf(b).value) == b
  {
    TcsEncodeDecode(t);
    if TcsOf(b).Some? {
      TcsDecodeEncode(b);
    }
  }

  lemma TcsEncodeDecode(t: Tcs)
    requires Valid(t)
    ensures TcsOf(TcsBytes(t)) == Some(t)
  {
    TcsLayout();
    var fs := TcsFields(t);
    SplitConcat(fs, TCS_SIZES);
    WordBytesRoundTrip(t.flags, []);
    U64RoundTrip(t.state);
    U64RoundTrip(t.ossa);
    U32RoundTrip(t.cssa);
    U32RoundTrip(t.nssa);
    U64RoundTrip(t.oentry);
    U64RoundTrip(t.aep);
    U64RoundTrip(t.ofsbasgx);
    U64RoundTrip(t.ogsbasgx);
    U32RoundTrip(t.fslimit);
    U32RoundTrip(t.gslimit);
  }

  lemma TcsDecodeEncode(b: seq<byte>)
    requires |b| == 4096 && TcsOf(b).Some?
    ensures TcsBytes(TcsOf(b).value) == b
  {
    TcsLayout();
    var f := Split(b, TCS_SIZES);
    ConcatSplit(b, TCS_SIZES);
    WordBytesRoundTrip([], f[1]);
    LE64RoundTrip(f[0]);
    LE64RoundTrip(f[2]);
    LE32RoundTrip(f[3]);
    LE32RoundTrip(f[4]);
    LE64RoundTrip(f[5]);
    LE64RoundTrip(f[6]);
    LE64RoundTrip(f[7]);
    LE64RoundTrip(f[8]);
    LE32RoundTrip(f[9]);
    LE32RoundTrip(f[10]);
    assert TcsFields(TcsOf(b).value) == f;
  }

  /** Field `i` of a TCS image lies between the `i`-th and the next offset of the layout. */
  lemma FieldAt(t: Tcs, i: nat)
    requires Valid(t) && i < 12
    ensures |TcsBytes(t)| == 4096
    ensures Offsets(TCS_SIZES)[i] <= Offsets(TCS_SIZES)[i + 1] <= 4096
    ensures TcsBytes(t)[Offsets(TCS_SIZES)[i]..Offsets(TCS_SIZES)[i + 1]] == TcsFields(t)[i]
  {
    ConcatField(TcsFields(t), TCS_SIZES, i);
    OffsetsAgree(TCS_SIZES, i);
    OffsetsAgree(TCS_SIZES, i + 1);
    OffsetBounds(TCS_SIZES, i);
  }

  const ONES32: seq<byte> := [0xFF, 0xFF, 0xFF, 0xFF]

  /** The field images of a new TCS. */
  lemma NewFields(entry: u64, ossa: u64, nssa: u32)
    ensures TcsFields(New(entry, ossa, nssa))
      == [Zeros(8), Zeros(8), LE64(ossa), Zeros(4), LE32(nssa), LE64(entry),
          Zeros(8), Zeros(8), Zeros(8), ONES32, ONES32, Zeros(PADDING_SIZE)]
  {
    ZeroImages();
  }

  lemma ZeroImages()
    ensures LE64(0) == Zeros(8) && LE32(0) == Zeros(4)
    ensures LE32(U32_MAX) == ONES32
    ensures WordBytes(Word(64, {}), 8) == Zeros(8)
  {
    LEZero(8);
    LEZero(4);
    Pow256Values();
    ValueZero(64);
    var n: nat := U32_MAX;
    assert LE(n, 4) == [n % 256] + LE(n / 256, 3);
    assert LE(n / 256, 3) == [0xFF] + LE(n / 65536, 2);
    assert LE(n / 65536, 2) == [0xFF] + LE(n / 16777216, 1);
    assert LE(n / 16777216, 1) == [0xFF] + LE(0, 0);
  }

  /** Each field of a new TCS sits at its offset in the page image. */
  lemma NewImage(entry: u64, ossa: u64, nssa: u32)
    ensures var b := TcsBytes(New(entry, ossa, nssa));
      b[0..8] == Zeros(8) && b[8..16] == Zeros(8) && b[16..24] == LE64(ossa)
      && b[24..28] == Zeros(4) && b[28..32] == LE32(nssa) && b[32..40] == LE64(entry)
      && b[40..48] == Zeros(8) && b[48..56] == Zeros(8) && b[56..64] == Zeros(8)
      && b[64..68] == ONES32 && b[68..72] == ONES32
      && b[72..] == Zeros(PADDING_SIZE)
  {
    var t := New(entry, ossa, nssa);
    TcsLayout();
    NewFields(entry, ossa, nssa);
    FieldAt(t, 0);
    FieldAt(t, 1);
    FieldAt(t, 2);
    FieldAt(t, 3);
    FieldAt(t, 4);
    FieldAt(t, 5);
    FieldAt(t, 6);
    FieldAt(t, 7);
    FieldAt(t, 8);
    FieldAt(t, 9);
    FieldAt(t, 10);
    FieldAt(t, 11);
  }
}
