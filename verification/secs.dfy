/**
  The SGX Enclave Control Structure, built from enclave parameters when an
  enclave is created. The enabled features are those the author requests
  (`data`) that the platform supports (`mask`).
*/
module Secs {
  import opened Bytes
  import opened Bits
  import opened Layout
  import opened Parameters
  import opened Results

  /**
    The SECS fields a caller can influence; every other field (mrenclave,
    mrsigner and the reserved regions) is zero in every SECS built here.
  */
  datatype Secs = Secs(
    size: u64,
    baseaddr: u64,
    ssaFrameSize: NonZeroU32,
    miscselect: MiscSelect,
    attributes: Attributes,
    pid: u16,
    svn: u16)

  /**
    `Parameters::secs(base, size, ssa_frame_pages)`. The base address and the
    `usize` size are modelled as 64-bit numbers. The product id and
    security version come from the parameters' ISV fields.
  */
  function ParametersSecs(p: Parameters, base: u64, size: u64, ssaPages: NonZeroU32): (r: Secs)
    ensures r.size == size && r.baseaddr == base && r.ssaFrameSize == ssaPages
    ensures r.pid == p.isvProdId && r.svn == p.isvSvn
    ensures forall i :: 0 <= i < 32 ==> (r.miscselect[i] <==> p.misc.data[i] && p.misc.mask[i])
    ensures forall i :: 0 <= i < 64 ==>
      (r.attributes.features[i] <==> p.attr.data.features[i] && p.attr.mask.features[i])
      && (r.attributes.xfrm[i] <==> p.attr.data.xfrm[i] && p.attr.mask.xfrm[i])
  {
    Secs(size, base, ssaPages, MiscAnd(p.misc.data, p.misc.mask), AttrAnd(p.attr.data, p.attr.mask), p.isvProdId, p.isvSvn)
  }

  /** Parameters built from plain values enable exactly those values. */
  lemma SecsOfFullMasks(v: MiscSelect, a: Attributes, xk: Word64, prod: u16, svn: u16, base: u64, size: u64, ssaPages: NonZeroU32)
    requires AttrValid(a, xk)
    ensures var s := ParametersSecs(Parameters(FromValue(MISC_OPS, v), FromValue(AttrOps(xk), a), prod, svn), base, size, ssaPages);
      s.miscselect == v && s.attributes == a
  {
    FromValueMaskIsAll(v, a, xk);
    var s := ParametersSecs(Parameters(FromValue(MISC_OPS, v), FromValue(AttrOps(xk), a), prod, svn), base, size, ssaPages);
    assert s.miscselect == v;
    assert s.attributes.features == a.features;
    assert s.attributes.xfrm == a.xfrm;
  }

  /** A platform that supports nothing enables nothing, whatever the author asks for. */
  lemma SecsOfEmptyMasks(p: Parameters, base: u64, size: u64, ssaPages: NonZeroU32)
    requires p.misc.mask == Word(32, {}) && p.attr.mask == ATTR_DEFAULT
    ensures var s := ParametersSecs(p, base, size, ssaPages);
      s.miscselect == Word(32, {}) && s.attributes == ATTR_DEFAULT
  {
    var s := ParametersSecs(p, base, size, ssaPages);
    assert s.miscselect == Word(32, {});
    assert s.attributes.features == Word(64, {});
    assert s.attributes.xfrm == Word(64, {});
  }

  /** The field sizes of the SECS page, in declaration order. */
  const SECS_SIZES: seq<nat> := [8, 8, 4, 4, 24, 16, 32, 32, 32, 96, 2, 2, 28, 3808]

  /** The field images of a SECS, in layout order. */
  function SecsFields(s: Secs): (r: seq<seq<byte>>)
    ensures Shaped(r, SECS_SIZES)
  {
    [LE64(s.size), LE64(s.baseaddr), LE32(s.ssaFrameSize), WordBytes(s.miscselect, 4), Zeros(24),
     AttrBytes(s.attributes), Zeros(32), Zeros(32), Zeros(32), Zeros(96),
     LE16(s.pid), LE16(s.svn), Zeros(28), Zeros(17 * 28 * 8)]
  }

  /** The 4096-byte SECS page image. */
  function SecsBytes(s: Secs): (r: seq<byte>)
    ensures |r| == 4096
  {
    ConcatLength(SecsFields(s), SECS_SIZES);
    SecsLayout();
    Concat(SecsFields(s))
  }

  /**
    The page is 4096 bytes: size 0, baseaddr 8, ssaframesize 16, miscselect 20,
    reserved 24, attributes 48, mrenclave 64, reserved 96, mrsigner 128,
    reserved 160, pid 256, svn 258, reserved 260 and 288.
  */
  lemma SecsLayout()
    ensures Sum(SECS_SIZES) == 4096
    ensures Offsets(SECS_SIZES) == [0, 8, 16, 20, 24, 48, 64, 96, 128, 160, 256, 258, 260, 288, 4096]
  {
    var s := SECS_SIZES;
    assert s[..0] == [];
    OffsetBounds(s, 0);
    OffsetBounds(s, 1);
    OffsetBounds(s, 2);
    OffsetBounds(s, 3);
    OffsetBounds(s, 4);
    OffsetBounds(s, 5);
    OffsetBounds(s, 6);
    OffsetBounds(s, 7);
    OffsetBounds(s, 8);
    OffsetBounds(s, 9);
    OffsetBounds(s, 10);
    OffsetBounds(s, 11);
    OffsetBounds(s, 12);
    OffsetBounds(s, 13);
    assert s[..14] == s;
    OffsetsList(s);
  }

  lemma OffsetsList(s: seq<nat>)
    requires s == SECS_SIZES
    requires Offset(s, 1) == 8 && Offset(s, 2) == 16 && Offset(s, 3) == 20 && Offset(s, 4) == 24
    requires Offset(s, 5) == 48 && Offset(s, 6) == 64 && Offset(s, 7) == 96 && Offset(s, 8) == 128
    requires Offset(s, 9) == 160 && Offset(s, 10) == 256 && Offset(s, 11) == 258 && Offset(s, 12) == 260
    requires Offset(s, 13) == 288 && Offset(s, 14) == 4096 && Offset(s, 0) == 0
    ensures Offsets(s) == [0, 8, 16, 20, 24, 48, 64, 96, 128, 160, 256, 258, 260, 288, 4096]
  {
    forall i | 0 <= i <= 14
      ensures Offsets(s)[i] == Offset(s, i)
    {
      OffsetsAgree(s, i);
    }
  }

  /** The SECS a page image holds, if its flag words hold declared flags only and its zero regions are zero. */
  function SecsOf(b: seq<byte>): (r: Option<Secs>)
    requires |b| == 4096
  {
    SecsLayout();
    ConcatSplit(b, SECS_SIZES);
    var f := Split(b, SECS_SIZES);
    var misc := WordOf(f[3]);
    var features := WordOf(f[5][..8]);
    var xfrm := WordOf(f[5][8..]);
    if U32(f[2]) != 0 && Within(misc, MISC_ALL) && Within(features, FEATURES_ALL)
       && f[4] == Zeros(24) && f[6] == Zeros(32) && f[7] == Zeros(32) && f[8] == Zeros(32)
       && f[9] == Zeros(96) && f[12] == Zeros(28) && f[13] == Zeros(17 * 28 * 8)
    then Some(Secs(U64(f[0]), U64(f[1]), U32(f[2]), misc, Attributes(features, xfrm), U16(f[10]), U16(f[11])))
    else None
  }

  /** Decoding a SECS image gives the SECS back, and every decodable image is one. */
  lemma SecsRoundTrip(s: Secs, b: seq<byte>)
    requires |b| == 4096
    ensures SecsOf(SecsBytes(s)) == Some(s)
    ensures SecsOf(b).Some? ==> SecsBytes(SecsOf(b).value) == b
  {
    SecsLayout();
    var fs := SecsFields(s);
    SplitConcat(fs, SECS_SIZES);
    AttrBytesRoundTrip(s.attributes, fs[5]);
    WordBytesRoundTrip(s.miscselect, []);
    U64RoundTrip(s.size);
    U64RoundTrip(s.baseaddr);
    U32RoundTrip(s.ssaFrameSize);
    U16RoundTrip(s.pid);
    U16RoundTrip(s.svn);
    if SecsOf(b).Some? {
      var f := Split(b, SECS_SIZES);
      ConcatSplit(b, SECS_SIZES);
      var v := SecsOf(b).value;
      WordBytesRoundTrip([], f[3]);
      AttrBytesRoundTrip(v.attributes, f[5]);
      LE64RoundTrip(f[0]);
      LE64RoundTrip(f[1]);
      LE32RoundTrip(f[2]);
      LE16RoundTrip(f[10]);
      LE16RoundTrip(f[11]);
      assert SecsFields(v) == f;
    }
  }

  /** The 16-byte ATTRIBUTES image splits into the features and XFRM words it was built from. */
  lemma AttrBytesRoundTrip(a: Attributes, b: seq<byte>)
    requires |b| == 16
    ensures WordOf(AttrBytes(a)[..8]) == a.features && WordOf(AttrBytes(a)[8..]) == a.xfrm
    ensures Within(WordOf(b[..8]), FEATURES_ALL) ==> AttrBytes(Attributes(WordOf(b[..8]), WordOf(b[8..]))) == b
  {
    var r := AttrBytes(a);
    assert r[..8] == WordBytes(a.features, 8) && r[8..] == WordBytes(a.xfrm, 8);
    WordBytesRoundTrip(a.features, []);
    WordBytesRoundTrip(a.xfrm, []);
    WordBytesRoundTrip([], b[..8]);
    WordBytesRoundTrip([], b[8..]);
    assert b == b[..8] + b[8..];
  }
}
