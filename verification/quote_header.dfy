/**
  The 48-byte quote header (table 3 of the ECDSA Quote Library API). The
  source reads the version and the attestation key type with an unchecked
  `transmute` into enums, so a value those enums lack is undefined
  behaviour there rather than an error; the model rejects such values.
*/
module QuoteHeader {
  import opened Bytes
  import opened Layout
  import opened Results
  import opened QuoteCast

  datatype Header = Header(
    version: seq<byte>,
    keyType: seq<byte>,
    reserved: seq<byte>,
    qeSvn: seq<byte>,
    pcesvn: seq<byte>,
    qeVendorId: seq<byte>,
    userData: seq<byte>)

  predicate Valid(h: Header) {
    |h.version| == 2 && |h.keyType| == 2 && |h.reserved| == 4 && |h.qeSvn| == 2
    && |h.pcesvn| == 2 && |h.qeVendorId| == 16 && |h.userData| == 20
  }

  /** The field sizes of the header, in declaration order. */
  const HEADER_SIZES: seq<nat> := [2, 2, 4, 2, 2, 16, 20]

  function HeaderFields(h: Header): (f: seq<seq<byte>>)
    ensures Valid(h) ==> Shaped(f, HEADER_SIZES)
  {
    [h.version, h.keyType, h.reserved, h.qeSvn, h.pcesvn, h.qeVendorId, h.userData]
  }

  /** The header as its 48 raw bytes. */
  function HeaderBytes(h: Header): (b: seq<byte>)
    requires Valid(h)
    ensures |b| == 48
  {
    ConcatLength(HeaderFields(h), HEADER_SIZES);
    HeaderLayout();
    Concat(HeaderFields(h))
  }

  /** The header 48 raw bytes hold. */
  function HeaderOf(b: seq<byte>): (h: Header)
    requires |b| == 48
    ensures Valid(h)
  {
    HeaderLayout();
    ConcatSplit(b, HEADER_SIZES);
    var f := Split(b, HEADER_SIZES);
    Header(f[0], f[1], f[2], f[3], f[4], f[5], f[6])
  }

  /**
    The header is 48 bytes: version 0, key type 2, reserved 4, QE SVN 8,
    PCE SVN 10, QE vendor id 12, user data 28.
  */
  lemma HeaderLayout()
    ensures Sum(HEADER_SIZES) == 48
    ensures Offsets(HEADER_SIZES) == [0, 2, 4, 8, 10, 12, 28, 48]
  {
    var s := HEADER_SIZES;
    assert s[..0] == [];
    OffsetBounds(s, 0);
    OffsetBounds(s, 1);
    OffsetBounds(s, 2);
    OffsetBounds(s, 3);
    OffsetBounds(s, 4);
    OffsetBounds(s, 5);
    OffsetBounds(s, 6);
    assert s[..7] == s;
    OffsetsAre(s, [0, 2, 4, 8, 10, 12, 28, 48]);
  }

  /** Bytes to header to bytes is the identity, and so is the other way round. */
  lemma HeaderRoundTrip(b: seq<byte>, h: Header)
    requires |b| == 48 && Valid(h)
    ensures HeaderBytes(HeaderOf(b)) == b
    ensures HeaderOf(HeaderBytes(h)) == h
  {
    HeaderLayout();
    ConcatSplit(b, HEADER_SIZES);
    SplitConcat(HeaderFields(h), HEADER_SIZES);
    assert HeaderFields(HeaderOf(b)) == Split(b, HEADER_SIZES);
    assert HeaderFields(HeaderOf(HeaderBytes(h))) == HeaderFields(h);
  }

  lemma FieldAt(b: seq<byte>, i: nat)
    requires |b| == 48 && i < 7
    ensures Offsets(HEADER_SIZES)[i] <= Offsets(HEADER_SIZES)[i + 1] <= 48
    ensures HeaderFields(HeaderOf(b))[i] == b[Offsets(HEADER_SIZES)[i]..Offsets(HEADER_SIZES)[i + 1]]
  {
    HeaderLayout();
    SplitField(b, HEADER_SIZES, i);
    OffsetsAgree(HEADER_SIZES, i);
    OffsetsAgree(HEADER_SIZES, i + 1);
    OffsetBounds(HEADER_SIZES, i);
  }

  /** The header's fields are the byte ranges the layout gives them. */
  lemma HeaderFieldsAt(b: seq<byte>)
    requires |b| == 48
    ensures var h := HeaderOf(b);
      h.version == b[0..2] && h.keyType == b[2..4] && h.reserved == b[4..8] && h.qeSvn == b[8..10]
      && h.pcesvn == b[10..12] && h.qeVendorId == b[12..28] && h.userData == b[28..48]
  {
    HeaderLayout();
    FieldAt(b, 0);
    FieldAt(b, 1);
    FieldAt(b, 2);
    FieldAt(b, 3);
    FieldAt(b, 4);
    FieldAt(b, 5);
    FieldAt(b, 6);
  }

  datatype QuoteVersion = V3
  datatype KeyType = ES256 | ES384

  function VersionCode(v: QuoteVersion): u16 {
    match v
    case V3 => 3
  }

  function KeyTypeCode(k: KeyType): u16 {
    match k
    case ES256 => 2
    case ES384 => 3
  }

  /** `QuoteHeader::version`: the LE u16 at bytes 0..2; only 3 is a version. */
  function Version(h: Header): (r: Result<QuoteVersion, QuoteError>)
    requires Valid(h)
    ensures r.Success? <==> U16(h.version) == 3
    ensures r.Success? ==> VersionCode(r.value) == U16(h.version)
    ensures r.Failure? ==> r.error == UnsupportedVersion(U16(h.version))
  {
    var v := U16(h.version);
    if v == 3 then Success(V3) else Failure(UnsupportedVersion(v))
  }

  /** `QuoteHeader::key_type`: the LE u16 at bytes 2..4; only 2 and 3 are key types. */
  function KeyTypeOf(h: Header): (r: Result<KeyType, QuoteError>)
    requires Valid(h)
    ensures r.Success? <==> U16(h.keyType) == 2 || U16(h.keyType) == 3
    ensures r.Success? ==> KeyTypeCode(r.value) == U16(h.keyType)
    ensures r.Failure? ==> r.error == UnsupportedKeyType(U16(h.keyType))
  {
    var k := U16(h.keyType);
    if k == 2 then Success(ES256) else if k == 3 then Success(ES384) else Failure(UnsupportedKeyType(k))
  }

  /** A header carrying a version's or key type's code reads back as that version or key type. */
  lemma CodesRoundTrip(h: Header, v: QuoteVersion, k: KeyType)
    requires Valid(h)
    ensures h.version == LE16(VersionCode(v)) ==> Version(h) == Success(v)
    ensures h.keyType == LE16(KeyTypeCode(k)) ==> KeyTypeOf(h) == Success(k)
  {
    U16RoundTrip(VersionCode(v));
    U16RoundTrip(KeyTypeCode(k));
  }

  /** `qe_svn` and `pce_svn`: LE u16 fields. */
  function QeSvn(h: Header): u16
    requires Valid(h)
  {
    U16(h.qeSvn)
  }

  function PceSvn(h: Header): u16
    requires Valid(h)
  {
    U16(h.pcesvn)
  }

  /** The SVNs are the LE u16 numbers at bytes 8 and 10 of the header image. */
  lemma SvnFields(b: seq<byte>)
    requires |b| == 48
    ensures QeSvn(HeaderOf(b)) == FromLE(b[8..10]) && LE16(QeSvn(HeaderOf(b))) == b[8..10]
    ensures PceSvn(HeaderOf(b)) == FromLE(b[10..12]) && LE16(PceSvn(HeaderOf(b))) == b[10..12]
  {
    HeaderFieldsAt(b);
    LE16RoundTrip(b[8..10]);
    LE16RoundTrip(b[10..12]);
  }
}
