/**
  The quote's signature data (table 4 of the ECDSA Quote Library API):
  four fixed records, then the QE authentication data with a u16 length
  in front, then the certification data type (u16), its length (u32) and
  the certification data itself. The parser reads the fields one after
  the other; bytes after the certification data are not looked at.
*/
module QuoteSig {
  import opened Bytes
  import opened Layout
  import opened Results
  import opened QuoteCast
  import Report

  /** `CertDataType` (table 9). */
  datatype CertDataType =
    | PpidPlaintext
    | PpidRsa2048Oaep
    | PpidRsa3072Oaep
    | PckLeafCert
    | PckCertChain
    | QuoteCert
    | Manifest

  function CertDataTypeCode(t: CertDataType): u16 {
    match t
    case PpidPlaintext => 1
    case PpidRsa2048Oaep => 2
    case PpidRsa3072Oaep => 3
    case PckLeafCert => 4
    case PckCertChain => 5
    case QuoteCert => 6
    case Manifest => 7
  }

  /** `CertDataType::try_from(u16)`: 1 to 7 name the seven types; anything else is unknown. */
  function CertDataTypeOf(v: u16): (r: Result<CertDataType, QuoteError>)
    ensures r.Success? <==> 1 <= v <= 7
    ensures r.Failure? ==> r.error == UnknownCertDataType
  {
    if v == 1 then Success(PpidPlaintext)
    else if v == 2 then Success(PpidRsa2048Oaep)
    else if v == 3 then Success(PpidRsa3072Oaep)
    else if v == 4 then Success(PckLeafCert)
    else if v == 5 then Success(PckCertChain)
    else if v == 6 then Success(QuoteCert)
    else if v == 7 then Success(Manifest)
    else Failure(UnknownCertDataType)
  }

  /** The type codes and the conversion are inverse to each other. */
  lemma CertDataTypeRoundTrip(t: CertDataType, v: u16)
    ensures CertDataTypeOf(CertDataTypeCode(t)) == Success(t)
    ensures CertDataTypeOf(v).Success? ==> CertDataTypeCode(CertDataTypeOf(v).value) == v
  {
  }

  /**
    `SigData`, with the slices it borrows from the quote copied out. The
    certification data type is kept raw; only `CertType` interprets it.
  */
  datatype SigData = SigData(
    isvEnclaveReportSig: seq<byte>,
    ecdsaAttestationKey: seq<byte>,
    qeReport: Report.ReportBody,
    qeReportSig: seq<byte>,
    qeAuth: seq<byte>,
    qeCertDataType: u16,
    qeCertDataLen: u32,
    qeCertData: seq<byte>)

  predicate Valid(d: SigData) {
    |d.isvEnclaveReportSig| == SIG_SIZE && |d.ecdsaAttestationKey| == PUB_KEY_SIZE
    && Report.Valid(d.qeReport) && |d.qeReportSig| == SIG_SIZE
    && |d.qeAuth| < 0x1_0000 && |d.qeCertData| == d.qeCertDataLen
  }

  /** `SigData::qe_cert_data_type`: the raw type, interpreted on request. */
  function CertType(d: SigData): (r: Result<CertDataType, QuoteError>)
    ensures r.Success? ==> CertDataTypeCode(r.value) == d.qeCertDataType
  {
    CertDataTypeRoundTrip(PpidPlaintext, d.qeCertDataType);
    CertDataTypeOf(d.qeCertDataType)
  }

  /** Field sizes of signature data with `a` bytes of QE authentication data and `c` of certification data. */
  function SigDataSizes(a: nat, c: nat): seq<nat> {
    [SIG_SIZE, PUB_KEY_SIZE, REPORT_SIZE, SIG_SIZE, U16_SIZE, a, U16_SIZE, U32_SIZE, c]
  }

  /** The field offsets: the variable-length fields start at 578 and 584 + `a`. */
  lemma SigDataLayout(a: nat, c: nat)
    ensures var s := SigDataSizes(a, c);
      Offset(s, 0) == 0 && Offset(s, 1) == 64 && Offset(s, 2) == 128 && Offset(s, 3) == 512
      && Offset(s, 4) == 576 && Offset(s, 5) == 578 && Offset(s, 6) == 578 + a
      && Offset(s, 7) == 580 + a && Offset(s, 8) == 584 + a && Offset(s, 9) == 584 + a + c
      && Sum(s) == 584 + a + c
  {
    var s := SigDataSizes(a, c);
    assert s[..0] == [];
    OffsetBounds(s, 0);
    OffsetBounds(s, 1);
    OffsetBounds(s, 2);
    OffsetBounds(s, 3);
    OffsetBounds(s, 4);
    OffsetBounds(s, 5);
    OffsetBounds(s, 6);
    OffsetBounds(s, 7);
    OffsetBounds(s, 8);
    assert s[..9] == s;
  }

  function SigDataFields(d: SigData): (f: seq<seq<byte>>)
    requires Valid(d)
    ensures Shaped(f, SigDataSizes(|d.qeAuth|, |d.qeCertData|))
  {
    [d.isvEnclaveReportSig, d.ecdsaAttestationKey, Report.ReportBodyBytes(d.qeReport), d.qeReportSig,
     LE16(|d.qeAuth|), d.qeAuth, LE16(d.qeCertDataType), LE32(d.qeCertDataLen), d.qeCertData]
  }

  /** The encoding the parser reads: the fields one after the other, lengths in front of the variable ones. */
  function SigDataBytes(d: SigData): (b: seq<byte>)
    requires Valid(d)
    ensures |b| == 584 + |d.qeAuth| + |d.qeCertData|
  {
    ConcatLength(SigDataFields(d), SigDataSizes(|d.qeAuth|, |d.qeCertData|));
    SigDataLayout(|d.qeAuth|, |d.qeCertData|);
    Concat(SigDataFields(d))
  }

  /**
    The byte string the parser accepts: long enough for the fixed records
    and the QE authentication length `a`, then for the authentication data,
    the type and the certification length `c`, then for the certification data.
  */
  predicate Parsable(b: seq<byte>) {
    |b| >= 578
    && var a := FromLE(b[576..578]);
    |b| >= 584 + a
    && var c := FromLE(b[580 + a..584 + a]);
    |b| >= 584 + a + c
  }

  /**
    `SigData::try_from(&[u8])`: reads the fields in order at a running
    offset; where the source would slice past the end and panic, the model
    fails with `OutOfBounds`.
  */
  function ParseSigData(b: seq<byte>): (r: Result<SigData, QuoteError>)
    ensures r.Success? <==> Parsable(b)
    ensures r.Failure? ==> r.error.OutOfBounds?
    ensures r.Success? ==>
      var a, c := |r.value.qeAuth|, |r.value.qeCertData|;
      Valid(r.value) && a == FromLE(b[576..578]) && c == FromLE(b[580 + a..584 + a])
      && r.value.isvEnclaveReportSig == b[0..64] && r.value.ecdsaAttestationKey == b[64..128]
      && r.value.qeReport == Report.ReportBodyOf(b[128..512]) && r.value.qeReportSig == b[512..576]
      && r.value.qeAuth == b[578..578 + a] && r.value.qeCertDataType == FromLE(b[578 + a..580 + a])
      && r.value.qeCertData == b[584 + a..584 + a + c]
  {
    var isvSig :- Read("isv enclave report sig", b, 0, SIG_SIZE);
    var ak :- Read("ecdsa attestation key", b, 64, PUB_KEY_SIZE);
    var qeReport :- Read("qe report", b, 128, REPORT_SIZE);
    var qeSig :- Read("qe report sig", b, 512, SIG_SIZE);
    var authLen :- Read("qe auth len", b, 576, U16_SIZE);
    var a := U16(authLen);
    var qeAuth :- Take(b, 578, 578 + a);
    var certType :- Read("qe auth len", b, 578 + a, U16_SIZE);
    var certLen :- Read("qe cert data len", b, 580 + a, U32_SIZE);
    var c := U32(certLen);
    var cert :- Take(b, 584 + a, 584 + a + c);
    Success(SigData(isvSig, ak, Report.ReportBodyOf(qeReport), qeSig, qeAuth, U16(certType), c, cert))
  }

  /** Field `i` of an encoding sits at its offset, whatever follows the encoding. */
  lemma FieldAt(d: SigData, rest: seq<byte>, i: nat)
    requires Valid(d) && i < 9
    ensures var s := SigDataSizes(|d.qeAuth|, |d.qeCertData|);
      Offset(s, i) <= Offset(s, i + 1) <= |SigDataBytes(d)|
      && (SigDataBytes(d) + rest)[Offset(s, i)..Offset(s, i + 1)] == SigDataFields(d)[i]
  {
    var s := SigDataSizes(|d.qeAuth|, |d.qeCertData|);
    ConcatField(SigDataFields(d), s, i);
    OffsetBounds(s, i);
    var b := SigDataBytes(d);
    assert (b + rest)[Offset(s, i)..Offset(s, i + 1)] == b[Offset(s, i)..Offset(s, i + 1)];
  }

  /**
    Parsing an encoding gives the signature data back, whatever bytes
    follow it: trailing bytes are not rejected.
  */
  lemma SigDataRoundTrip(d: SigData, rest: seq<byte>)
    requires Valid(d)
    ensures ParseSigData(SigDataBytes(d) + rest) == Success(d)
  {
    var a, c := |d.qeAuth|, |d.qeCertData|;
    var b := SigDataBytes(d) + rest;
    SigDataLayout(a, c);
    FieldAt(d, rest, 0);
    FieldAt(d, rest, 1);
    FieldAt(d, rest, 2);
    FieldAt(d, rest, 3);
    FieldAt(d, rest, 4);
    FieldAt(d, rest, 5);
    FieldAt(d, rest, 6);
    FieldAt(d, rest, 7);
    FieldAt(d, rest, 8);
    U16RoundTrip(a);
    U16RoundTrip(d.qeCertDataType);
    U32RoundTrip(d.qeCertDataLen);
    Report.ReportBodyRoundTrip(b[128..512], d.qeReport);
    assert Parsable(b);
    var r := ParseSigData(b).value;
    assert r.qeAuth == d.qeAuth;
    assert r.qeCertData == d.qeCertData;
  }

  /**
    What the parser accepts is an encoding followed by bytes it ignores:
    it consumes exactly `584 + a + c` bytes.
  */
  lemma ParsedPrefix(b: seq<byte>)
    requires ParseSigData(b).Success?
    ensures var d := ParseSigData(b).value;
      |SigDataBytes(d)| <= |b| && SigDataBytes(d) == b[..|SigDataBytes(d)|]
  {
    var d := ParseSigData(b).value;
    var a, c := |d.qeAuth|, |d.qeCertData|;
    var n := 584 + a + c;
    var p := b[..n];
    var s := SigDataSizes(a, c);
    SigDataLayout(a, c);
    LE16RoundTrip(b[576..578]);
    LE16RoundTrip(b[578 + a..580 + a]);
    LE32RoundTrip(b[580 + a..584 + a]);
    Report.ReportBodyRoundTrip(b[128..512], d.qeReport);
    forall i | 0 <= i < 9
      ensures Split(p, s)[i] == SigDataFields(d)[i]
    {
      SplitField(p, s, i);
      OffsetBounds(s, i);
      assert p[Offset(s, i)..Offset(s, i + 1)] == b[Offset(s, i)..Offset(s, i + 1)];
    }
    ConcatSplit(p, s);
    assert Split(p, s) == SigDataFields(d);
  }
}
