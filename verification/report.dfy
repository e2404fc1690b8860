/**
  The enclave report (section 38.15 of the Intel SDM, volume 3D, and table 5
  of the ECDSA Quote Library API): the 384-byte report body EREPORT writes
  and the 512-byte REPORT around it. Every field is kept as the raw bytes
  of the record; the accessors decode them.
*/
module Report {
  import opened Bytes
  import opened Bits
  import opened Layout
  import opened Parameters

  datatype ReportBody = ReportBody(
    cpusvn: seq<byte>,
    miscselect: seq<byte>,
    reserved1: seq<byte>,
    features: seq<byte>,
    xfrm: seq<byte>,
    mrenclave: seq<byte>,
    reserved2: seq<byte>,
    mrsigner: seq<byte>,
    reserved3: seq<byte>,
    isvProdId: seq<byte>,
    isvSvn: seq<byte>,
    reserved4: seq<byte>,
    reportdata: seq<byte>)

  /** The field sizes of the report body, in declaration order. */
  const REPORT_BODY_SIZES: seq<nat> := [16, 4, 28, 8, 8, 32, 32, 32, 96, 2, 2, 60, 64]

  predicate Valid(r: ReportBody) {
    |r.cpusvn| == 16 && |r.miscselect| == 4 && |r.reserved1| == 28 && |r.features| == 8 && |r.xfrm| == 8
    && |r.mrenclave| == 32 && |r.reserved2| == 32 && |r.mrsigner| == 32 && |r.reserved3| == 96
    && |r.isvProdId| == 2 && |r.isvSvn| == 2 && |r.reserved4| == 60 && |r.reportdata| == 64
  }

  function BodyFields(r: ReportBody): (f: seq<seq<byte>>)
    ensures Valid(r) ==> Shaped(f, REPORT_BODY_SIZES)
  {
    [r.cpusvn, r.miscselect, r.reserved1, r.features, r.xfrm, r.mrenclave, r.reserved2,
     r.mrsigner, r.reserved3, r.isvProdId, r.isvSvn, r.reserved4, r.reportdata]
  }

  /** The report body as its 384 raw bytes (`From<ReportBody> for [u8; 384]`). */
  function ReportBodyBytes(r: ReportBody): (b: seq<byte>)
    requires Valid(r)
    ensures |b| == 384
  {
    ConcatLength(BodyFields(r), REPORT_BODY_SIZES);
    ReportBodyLayout();
    Concat(BodyFields(r))
  }

  /** The report body 384 raw bytes hold (`From<[u8; 384]> for ReportBody`). */
  function ReportBodyOf(b: seq<byte>): (r: ReportBody)
    requires |b| == 384
    ensures Valid(r)
  {
    ReportBodyLayout();
    ConcatSplit(b, REPORT_BODY_SIZES);
    var f := Split(b, REPORT_BODY_SIZES);
    var r := ReportBody(f[0], f[1], f[2], f[3], f[4], f[5], f[6], f[7], f[8], f[9], f[10], f[11], f[12]);
    assert BodyFields(r) == f;
    r
  }

  /**
    The report body is 384 bytes: cpusvn 0, miscselect 16, reserved 20,
    features 48, xfrm 56, mrenclave 64, reserved 96, mrsigner 128,
    reserved 160, isv_prodid 256, isv_svn 258, reserved 260, reportdata 320.
  */
  lemma ReportBodyLayout()
    ensures Sum(REPORT_BODY_SIZES) == 384
    ensures Offsets(REPORT_BODY_SIZES) == [0, 16, 20, 48, 56, 64, 96, 128, 160, 256, 258, 260, 320, 384]
  {
    var s := REPORT_BODY_SIZES;
    assert s[..0] == [];
    OffsetBounds(s, 0);
    OffsetBounds(s, 1);
    OffsetBounds(s, 2);
    OffsetBounds(s, 3);
    OffsetBounds(s, 4);
    OffsetBounds(s, 5);
    OffsetBounds(s, 6);
    OffsetBounds(s, 7);
    OffsetBounds(s, 8);
    OffsetBounds(s, 9);
    OffsetBounds(s, 10);
    OffsetBounds(s, 11);
    OffsetBounds(s, 12);
    assert s[..13] == s;
    BodyOffsets(s);
  }

  lemma BodyOffsets(s: seq<nat>)
    requires s == REPORT_BODY_SIZES && Offset(s, 0) == 0
    requires Offset(s, 1) == 16 && Offset(s, 2) == 20 && Offset(s, 3) == 48 && Offset(s, 4) == 56
    requires Offset(s, 5) == 64 && Offset(s, 6) == 96 && Offset(s, 7) == 128 && Offset(s, 8) == 160
    requires Offset(s, 9) == 256 && Offset(s, 10) == 258 && Offset(s, 11) == 260 && Offset(s, 12) == 320
    requires Offset(s, 13) == 384
    ensures Offsets(s) == [0, 16, 20, 48, 56, 64, 96, 128, 160, 256, 258, 260, 320, 384]
  {
    forall i | 0 <= i <= 13
      ensures Offsets(s)[i] == Offset(s, i)
    {
      OffsetsAgree(s, i);
    }
  }

  /** Bytes to report body to bytes is the identity, and so is the other way round. */
  lemma ReportBodyRoundTrip(b: seq<byte>, r: ReportBody)
    requires |b| == 384 && Valid(r)
    ensures ReportBodyBytes(ReportBodyOf(b)) == b
    ensures ReportBodyOf(ReportBodyBytes(r)) == r
  {
    ReportBodyLayout();
    ConcatSplit(b, REPORT_BODY_SIZES);
    SplitConcat(BodyFields(r), REPORT_BODY_SIZES);
    assert BodyFields(ReportBodyOf(b)) == Split(b, REPORT_BODY_SIZES);
    assert BodyFields(ReportBodyOf(ReportBodyBytes(r))) == BodyFields(r);
  }

  /** Field `i` of a report body is bytes `Offsets[i]..Offsets[i + 1]` of its image. */
  lemma FieldAt(b: seq<byte>, i: nat)
    requires |b| == 384 && i < 13
    ensures Offsets(REPORT_BODY_SIZES)[i] <= Offsets(REPORT_BODY_SIZES)[i + 1] <= 384
    ensures BodyFields(ReportBodyOf(b))[i] == b[Offsets(REPORT_BODY_SIZES)[i]..Offsets(REPORT_BODY_SIZES)[i + 1]]
  {
    ReportBodyLayout();
    SplitField(b, REPORT_BODY_SIZES, i);
    OffsetsAgree(REPORT_BODY_SIZES, i);
    OffsetsAgree(REPORT_BODY_SIZES, i + 1);
    OffsetBounds(REPORT_BODY_SIZES, i);
  }

  /** The fields of the report body 384 bytes hold are the byte ranges the layout gives them. */
  lemma ReportBodyFields(b: seq<byte>)
    requires |b| == 384
    ensures var r := ReportBodyOf(b);
      r.cpusvn == b[0..16] && r.miscselect == b[16..20] && r.features == b[48..56] && r.xfrm == b[56..64]
      && r.mrenclave == b[64..96] && r.mrsigner == b[128..160]
      && r.isvProdId == b[256..258] && r.isvSvn == b[258..260] && r.reportdata == b[320..384]
  {
    ReportBodyLayout();
    FieldAt(b, 0);
    FieldAt(b, 1);
    FieldAt(b, 3);
    FieldAt(b, 4);
    FieldAt(b, 5);
    FieldAt(b, 7);
    FieldAt(b, 9);
    FieldAt(b, 10);
    FieldAt(b, 12);
  }

  /** `ReportBody::misc_select`: the LE u32 with undeclared bits dropped; it cannot fail. */
  function MiscSelectOf(r: ReportBody): (m: MiscSelect)
    requires Valid(r)
    ensures forall i :: 0 <= i < 32 && MISC_ALL[i] ==> m[i] == WordOf(r.miscselect)[i]
  {
    Truncate(WordOf(r.miscselect), MISC_ALL)
  }

  /**
    `ReportBody::attributes`: features and XFRM words with undeclared bits
    dropped (`xk` is the set of declared XFRM bits); it cannot fail.
  */
  function AttributesOf(r: ReportBody, xk: Word64): (a: Attributes)
    requires Valid(r)
    ensures AttrValid(a, xk)
    ensures forall i :: 0 <= i < 64 && FEATURES_ALL[i] ==> a.features[i] == WordOf(r.features)[i]
    ensures forall i :: 0 <= i < 64 && xk[i] ==> a.xfrm[i] == WordOf(r.xfrm)[i]
  {
    Attributes(Truncate(WordOf(r.features), FEATURES_ALL), Truncate(WordOf(r.xfrm), xk))
  }

  /** `enclave_product_id` and `enclave_security_version`: LE u16 fields. */
  function EnclaveProductId(r: ReportBody): u16
    requires Valid(r)
  {
    U16(r.isvProdId)
  }

  function EnclaveSecurityVersion(r: ReportBody): u16
    requires Valid(r)
  {
    U16(r.isvSvn)
  }

  /**
    The product id and security version are the LE u16 numbers at bytes
    256 and 258 of the image, and decoding again what the accessors return,
    re-encoded, gives the same fields back.
  */
  lemma IsvFields(b: seq<byte>)
    requires |b| == 384
    ensures EnclaveProductId(ReportBodyOf(b)) == FromLE(b[256..258])
    ensures EnclaveSecurityVersion(ReportBodyOf(b)) == FromLE(b[258..260])
    ensures LE16(EnclaveProductId(ReportBodyOf(b))) == b[256..258]
    ensures LE16(EnclaveSecurityVersion(ReportBodyOf(b))) == b[258..260]
  {
    ReportBodyFields(b);
    LE16RoundTrip(b[256..258]);
    LE16RoundTrip(b[258..260]);
  }

  /** `Report`: the body, the key id and the MAC, padded to its 512-byte alignment. */
  datatype Report = Report(body: ReportBody, keyid: seq<byte>, mac: seq<byte>)

  /** Body, key id, MAC and the alignment padding after them. */
  const REPORT_SIZES: seq<nat> := [384, 32, 16, 80]

  /**
    The report is 512 bytes: body 0, key id 384, MAC 416; the last 80
    bytes are padding up to the 512-byte alignment.
  */
  lemma ReportLayout()
    ensures Sum(REPORT_SIZES) == 512
    ensures Offsets(REPORT_SIZES) == [0, 384, 416, 432, 512]
  {
    var s := REPORT_SIZES;
    assert s[..0] == [];
    OffsetBounds(s, 0);
    OffsetBounds(s, 1);
    OffsetBounds(s, 2);
    OffsetBounds(s, 3);
    assert s[..4] == s;
    OffsetsAre(s, [0, 384, 416, 432, 512]);
  }
}
