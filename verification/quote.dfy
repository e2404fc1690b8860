/**
  The DCAP quote (section A.4 of the ECDSA Quote Library API): the 48-byte
  header, then, for version 3, the 384-byte ISV enclave report, the u32
  length of the signature data and the signature data itself. All
  integers are little-endian.
*/
module Quote {
  import opened Bytes
  import opened Layout
  import opened Results
  import opened QuoteCast
  import QuoteHeader
  import QuoteSig
  import Report

  datatype QuoteBodyV3 = QuoteBodyV3(isvEnclaveReport: Report.ReportBody, sigDataLen: u32, sigData: QuoteSig.SigData)

  /** `QuoteBody`: the version-specific body; version 3 is the only one. */
  datatype QuoteBody = V3(v3: QuoteBodyV3)

  datatype Quote = Quote(header: QuoteHeader.Header, body: QuoteBody)

  /**
    The size constants are the sizes of the records they name, and the
    signature data starts at byte 436.
  */
  lemma Sizes()
    ensures QUOTE_HEADER_SIZE == Sum(QuoteHeader.HEADER_SIZES)
    ensures REPORT_SIZE == Sum(Report.REPORT_BODY_SIZES)
    ensures QUOTE_SIG_DATA_LEN_SIZE == U32_SIZE == 4 && U16_SIZE == 2
    ensures QUOTE_SIG_START == 436
  {
    QuoteHeader.HeaderLayout();
    Report.ReportBodyLayout();
  }

  /**
    The length-prefixed quote body a version-3 quote holds: the signature
    data is bytes `436..436 + len` of the quote, where `len` is the LE u32
    at 432..436.
  */
  predicate BodyParsable(b: seq<byte>) {
    |b| >= 436
    && var len := FromLE(b[432..436]);
    |b| >= 436 + len && QuoteSig.Parsable(b[436..436 + len])
  }

  /**
    `QuoteBodyV3::try_from(&[u8])` over the whole quote: the report at
    48..432, the length at 432..436, and the signature data parsed from
    exactly `436..436 + len`; anything after that is not looked at.
  */
  function ParseBodyV3(b: seq<byte>): (r: Result<QuoteBodyV3, QuoteError>)
    ensures r.Success? <==> BodyParsable(b)
    ensures r.Success? ==>
      var len := FromLE(b[432..436]);
      r.value.isvEnclaveReport == Report.ReportBodyOf(b[48..432])
      && r.value.sigDataLen == len
      && QuoteSig.ParseSigData(b[436..436 + len]) == Success(r.value.sigData)
  {
    var report :- Read("isv enclave report", b, QUOTE_HEADER_SIZE, REPORT_SIZE);
    var lenBytes :- Read("sig data len", b, QUOTE_SIG_START - QUOTE_SIG_DATA_LEN_SIZE, U32_SIZE);
    var len := U32(lenBytes);
    var sig :- Take(b, QUOTE_SIG_START, QUOTE_SIG_START + len);
    var sd :- QuoteSig.ParseSigData(sig);
    Success(QuoteBodyV3(Report.ReportBodyOf(report), len, sd))
  }

  /** `QuoteBody::try_from((header, bytes))`: dispatches on the header's version. */
  function ParseBody(h: QuoteHeader.Header, b: seq<byte>): (r: Result<QuoteBody, QuoteError>)
    requires QuoteHeader.Valid(h)
    ensures QuoteHeader.Version(h).Failure? ==> r == Failure(QuoteHeader.Version(h).error)
    ensures QuoteHeader.Version(h).Success? ==>
      (r.Success? <==> ParseBodyV3(b).Success?) && (r.Success? ==> r.value == V3(ParseBodyV3(b).value))
  {
    match QuoteHeader.Version(h)
    case Failure(e) => Failure(e)
    case Success(V3) =>
      match ParseBodyV3(b)
      case Failure(e) => Failure(e)
      case Success(v3) => Success(V3(v3))
  }

  /**
    `Quote::try_from(&[u8])`: the header is bytes 0..48; a quote too short
    for it fails with `OutOfBounds`, a version other than 3 (undefined
    behaviour in the source's `transmute`) with `UnsupportedVersion`, and
    then the body is parsed.
  */
  function ParseQuote(b: seq<byte>): (r: Result<Quote, QuoteError>)
    ensures |b| < 48 ==> r == Failure(OutOfBounds(48, |b|))
    ensures |b| >= 48 && U16(b[0..2]) != 3 ==> r == Failure(UnsupportedVersion(U16(b[0..2])))
    ensures r.Success? <==> |b| >= 48 && FromLE(b[0..2]) == 3 && BodyParsable(b)
    ensures r.Success? ==>
      r.value.header == QuoteHeader.HeaderOf(b[0..48]) && r.value.body == V3(ParseBodyV3(b).value)
  {
    match Read("header", b, 0, QUOTE_HEADER_SIZE)
    case Failure(e) => Failure(e)
    case Success(hb) =>
      var h := QuoteHeader.HeaderOf(hb);
      QuoteHeader.HeaderFieldsAt(hb);
      assert hb[0..2] == b[0..2];
      match ParseBody(h, b)
      case Failure(e) => Failure(e)
      case Success(body) => Success(Quote(h, body))
  }

  /** Bytes after the signature data do not change what a body parses to. */
  lemma BodyTrailingIgnored(b: seq<byte>, extra: seq<byte>)
    requires BodyParsable(b)
    ensures ParseBodyV3(b + extra) == ParseBodyV3(b)
  {
    var c := b + extra;
    var len := FromLE(b[432..436]);
    assert c[48..432] == b[48..432];
    assert c[432..436] == b[432..436];
    assert c[436..436 + len] == b[436..436 + len];
    assert BodyParsable(c);
  }

  /** Bytes after the signature data do not change what a quote parses to. */
  lemma TrailingIgnored(b: seq<byte>, extra: seq<byte>)
    requires ParseQuote(b).Success?
    ensures ParseQuote(b + extra) == ParseQuote(b)
  {
    var c := b + extra;
    assert c[0..48] == b[0..48] && c[0..2] == b[0..2];
    BodyTrailingIgnored(b, extra);
  }

  /** The image of a version-3 quote: header, ISV report, signature data length, signature data. */
  function QuoteBytes(h: QuoteHeader.Header, r: Report.ReportBody, d: QuoteSig.SigData): (b: seq<byte>)
    requires QuoteHeader.Valid(h) && Report.Valid(r) && QuoteSig.Valid(d)
    requires |QuoteSig.SigDataBytes(d)| < 0x1_0000_0000
    ensures |b| == 436 + |QuoteSig.SigDataBytes(d)|
  {
    QuoteHeader.HeaderBytes(h) + Report.ReportBodyBytes(r) + LE32(|QuoteSig.SigDataBytes(d)|) + QuoteSig.SigDataBytes(d)
  }

  /**
    A version-3 quote image, followed by anything, parses back to the
    header, the report and the signature data it was built from.
  */
  lemma QuoteRoundTrip(h: QuoteHeader.Header, r: Report.ReportBody, d: QuoteSig.SigData, rest: seq<byte>)
    requires QuoteHeader.Valid(h) && Report.Valid(r) && QuoteSig.Valid(d)
    requires |QuoteSig.SigDataBytes(d)| < 0x1_0000_0000
    requires U16(h.version) == 3
    ensures ParseQuote(QuoteBytes(h, r, d) + rest)
         == Success(Quote(h, V3(QuoteBodyV3(r, |QuoteSig.SigDataBytes(d)|, d))))
  {
    var sd := QuoteSig.SigDataBytes(d);
    var n := |sd|;
    var q := QuoteBytes(h, r, d);
    assert q[0..48] == QuoteHeader.HeaderBytes(h);
    assert q[48..432] == Report.ReportBodyBytes(r);
    assert q[432..436] == LE32(n);
    assert q[436..436 + n] == sd;
    QuoteHeader.HeaderRoundTrip(q[0..48], h);
    QuoteHeader.HeaderFieldsAt(q[0..48]);
    Report.ReportBodyRoundTrip(q[48..432], r);
    U32RoundTrip(n);
    QuoteSig.SigDataRoundTrip(d, []);
    assert sd + [] == sd;
    assert ParseQuote(q).Success?;
    TrailingIgnored(q, rest);
  }
}
