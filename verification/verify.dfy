/**
  Verification of a version-3 quote against the tenant's trusted PCK
  certificate chain: the quote is parsed, the PCK leaf certificate is
  taken from its certification data, the chain is checked, the
  attestation key's signature over the quote and the PCK's signature over
  the Quoting Enclave's report are verified, and the hash the QE report
  carries is checked against the attestation key and the QE
  authentication data. The first check that fails ends the verification.
*/
module Verification {
  import opened Bytes
  import opened Results
  import opened Quote
  import opened CertChain
  import opened QuoteCast
  import opened Pipeline
  import QuoteSig
  import Report

  /**
    The primitives verification relies on, for certificates of type `C`
    and public keys of type `K`: extraction of the PCK leaf from the
    certification data, given its raw type code and its bytes (only code 5,
    a PCK certificate chain, holds a PEM chain), PEM decoding of the trusted chain, the X.509
    issuer relation and path validation, P-256 public keys from affine
    coordinates or from a certificate, ECDSA-P256-SHA256 verification of
    a raw `r ∥ s` signature, and SHA-256.
  */
  datatype Platform<!C, !K> = Platform(
    pckLeaf: (u16, seq<byte>) -> Option<C>,
    pemChain: string -> Option<seq<C>>,
    issued: (C, C) -> bool,
    validate: (C, seq<C>, C) -> PathOutcome,
    keyFromXY: seq<byte> -> Option<K>,
    certKey: C -> Option<K>,
    ecdsaVerify: (K, seq<byte>, seq<byte>) -> bool,
    sha256: seq<byte> -> seq<byte>)

  /** The checks of a verification, in the order they are made. */
  datatype Step =
    | Parse
    | CertData
    | TrustedChain
    | ChainLength
    | Issuers
    | ChainSignatures
    | AttestationKey
    | QuoteSignature
    | PckKey
    | QeReportSignature
    | QeHash

  const STEP_COUNT: nat := 11

  const STEPS: seq<Step> := [Parse, CertData, TrustedChain, ChainLength, Issuers, ChainSignatures,
                             AttestationKey, QuoteSignature, PckKey, QeReportSignature, QeHash]

  /** The position of a check in the order. */
  function Rank(s: Step): (k: nat)
    ensures k < STEP_COUNT && STEPS[k] == s
  {
    match s
    case Parse => 0
    case CertData => 1
    case TrustedChain => 2
    case ChainLength => 3
    case Issuers => 4
    case ChainSignatures => 5
    case AttestationKey => 6
    case QuoteSignature => 7
    case PckKey => 8
    case QeReportSignature => 9
    case QeHash => 10
  }

  /** The signature data of a quote that parses. */
  function SigDataOf(b: seq<byte>): QuoteSig.SigData
    requires ParseQuote(b).Success?
  {
    ParseQuote(b).value.body.v3.sigData
  }

  /**
    Where the fixed-size fields of the signature data sit in a quote that
    parses: the ISV report signature at 436..500, the attestation key at
    500..564, the QE report at 564..948 with the first 32 bytes of its
    report data at 884..916, and the QE report signature at 948..1012.
  */
  lemma FixedInQuote(b: seq<byte>)
    requires ParseQuote(b).Success?
    ensures var sd := SigDataOf(b);
      QuoteSig.Valid(sd) && |b| >= 1020 + |sd.qeAuth| + |sd.qeCertData|
      && sd.isvEnclaveReportSig == b[436..500] && sd.ecdsaAttestationKey == b[500..564]
      && Report.ReportBodyBytes(sd.qeReport) == b[564..948] && sd.qeReportSig == b[948..1012]
      && sd.qeReport.reportdata[..32] == b[884..916]
  {
    var s := SigDataSpan(b);
    FixedFieldsAt(b, s, SigDataOf(b));
  }

  /**
    Where the QE authentication data sits: after its u16 length at
    1012..1014.
  */
  lemma QeAuthInQuote(b: seq<byte>)
    requires ParseQuote(b).Success?
    ensures var sd := SigDataOf(b);
      var a := |sd.qeAuth|;
      |b| >= 1020 + a + |sd.qeCertData| && a == FromLE(b[1012..1014]) && sd.qeAuth == b[1014..1014 + a]
  {
    var s := SigDataSpan(b);
    QeAuthAt(b, s, SigDataOf(b));
  }

  /**
    Where the certification data sits: after the QE authentication data,
    the u16 certification data type and the u32 length.
  */
  lemma CertDataInQuote(b: seq<byte>)
    requires ParseQuote(b).Success?
    ensures var sd := SigDataOf(b);
      var a, c := |sd.qeAuth|, |sd.qeCertData|;
      |b| >= 1020 + a + c && c == FromLE(b[1016 + a..1020 + a]) && sd.qeCertData == b[1020 + a..1020 + a + c]
  {
    var s := SigDataSpan(b);
    CertDataAt(b, s, SigDataOf(b));
  }

  /** The fixed-size fields of signature data that starts at byte 436. */
  lemma FixedFieldsAt(b: seq<byte>, s: seq<byte>, sd: QuoteSig.SigData)
    requires 436 + |s| <= |b| && s == b[436..436 + |s|] && QuoteSig.ParseSigData(s) == Success(sd)
    ensures QuoteSig.Valid(sd) && |b| >= 1020 + |sd.qeAuth| + |sd.qeCertData|
      && sd.isvEnclaveReportSig == b[436..500] && sd.ecdsaAttestationKey == b[500..564]
      && Report.ReportBodyBytes(sd.qeReport) == b[564..948] && sd.qeReportSig == b[948..1012]
      && sd.qeReport.reportdata[..32] == b[884..916]
  {
    Within(b, s, 436, 0, 64);
    Within(b, s, 436, 64, 128);
    Within(b, s, 436, 128, 512);
    Within(b, s, 436, 512, 576);
    ReportInQuote(b[564..948], sd.qeReport);
    Within(b, b[564..948], 564, 320, 352);
  }

  /** The QE authentication data of signature data that starts at byte 436, after its u16 length. */
  lemma QeAuthAt(b: seq<byte>, s: seq<byte>, sd: QuoteSig.SigData)
    requires 436 + |s| <= |b| && s == b[436..436 + |s|] && QuoteSig.ParseSigData(s) == Success(sd)
    ensures var a := |sd.qeAuth|;
      |b| >= 1020 + a + |sd.qeCertData| && a == FromLE(b[1012..1014]) && sd.qeAuth == b[1014..1014 + a]
  {
    var a := |sd.qeAuth|;
    Within(b, s, 436, 576, 578);
    Within(b, s, 436, 578, 578 + a);
  }

  /** The certification data of signature data that starts at byte 436, after its u32 length. */
  lemma CertDataAt(b: seq<byte>, s: seq<byte>, sd: QuoteSig.SigData)
    requires 436 + |s| <= |b| && s == b[436..436 + |s|] && QuoteSig.ParseSigData(s) == Success(sd)
    ensures var a, c := |sd.qeAuth|, |sd.qeCertData|;
      |b| >= 1020 + a + c && c == FromLE(b[1016 + a..1020 + a]) && sd.qeCertData == b[1020 + a..1020 + a + c]
  {
    var a, c := |sd.qeAuth|, |sd.qeCertData|;
    Within(b, s, 436, 580 + a, 584 + a);
    Within(b, s, 436, 584 + a, 584 + a + c);
  }

  /** The signature data of a quote that parses is parsed from the bytes its length field delimits. */
  lemma SigDataSpan(b: seq<byte>) returns (s: seq<byte>)
    requires ParseQuote(b).Success?
    ensures 436 + |s| <= |b| && s == b[436..436 + |s|] && QuoteSig.ParseSigData(s) == Success(SigDataOf(b))
  {
    s := b[436..436 + FromLE(b[432..436])];
  }

  /** A slice of a slice is a slice of the whole. */
  lemma Within(b: seq<byte>, s: seq<byte>, off: nat, x: nat, y: nat)
    requires off + |s| <= |b| && s == b[off..off + |s|] && x <= y <= |s|
    ensures s[x..y] == b[off + x..off + y]
  {
    forall i | 0 <= i < y - x
      ensures s[x..y][i] == b[off + x..off + y][i]
    {
      assert s[x + i] == b[off + x + i];
    }
  }

  /** The QE report is the 384 bytes it was read from, and its report data is their last 64. */
  lemma ReportInQuote(bytes: seq<byte>, r: Report.ReportBody)
    requires |bytes| == 384 && r == Report.ReportBodyOf(bytes)
    ensures Report.ReportBodyBytes(r) == bytes && r.reportdata == bytes[320..384]
    ensures r.reportdata[..32] == bytes[320..352]
  {
    Report.ReportBodyRoundTrip(bytes, r);
    Report.ReportBodyFields(bytes);
    Within(bytes, bytes[320..384], 320, 0, 32);
  }

  /**
    `Quote::raw_header_and_body`: the material the attestation key signs,
    the header and the ISV enclave report, bytes 0..432.
  */
  function RawHeaderAndBody(b: seq<byte>): (r: Option<seq<byte>>)
    ensures r.Some? <==> |b| >= 432
    ensures r.Some? ==> r.value == b[..QUOTE_HEADER_SIZE] + b[QUOTE_HEADER_SIZE..QUOTE_SIG_START - 4]
  {
    if |b| < 432 then None else Some(b[0..432])
  }

  /**
    `Quote::raw_pck_hash`: the first 32 bytes of the QE report's report
    data, bytes 884..916 of the quote.
  */
  function RawPckHash(b: seq<byte>): (r: Option<seq<byte>>)
    ensures r.Some? <==> |b| >= 916
    ensures r.Some? ==> |r.value| == 32 && r.value == b[884..916]
  {
    if |b| < 916 then None else Some(b[884..916])
  }

  /**
    What `verify` reads out of the quote and the trusted chain before it
    checks anything with it: whether the quote parsed (with its signed
    material and hashed report data), the material each signature and the
    hash cover, the PCK leaf and the trusted chain, and the two keys.
    Whatever an earlier step failed to produce is empty.
  */
  datatype Evidence<C, K> = Evidence(
    parsed: bool,
    signed: seq<byte>,
    hashed: seq<byte>,
    reportSig: seq<byte>,
    attKey: seq<byte>,
    qeReport: seq<byte>,
    qeReportSig: seq<byte>,
    qeAuth: seq<byte>,
    leaf: Option<C>,
    trusted: Option<seq<C>>,
    ak: Option<K>,
    pck: Option<K>)

  /**
    The evidence of a quote, taken as `verify` takes it. The signed
    material and the hashed report data are read before the quote is
    parsed, but a quote that parses always holds both.
  */
  function Gather<C, K>(b: seq<byte>, pem: string, p: Platform<C, K>): (e: Evidence<C, K>)
    ensures e.parsed <==> ParseQuote(b).Success?
    ensures e.parsed ==> (FixedInQuote(b);
      var sd := SigDataOf(b);
      e.signed == b[..432] && e.hashed == b[884..916]
      && e.reportSig == b[436..500] && e.attKey == b[500..564]
      && e.qeReport == b[564..948] && e.qeReportSig == b[948..1012] && e.qeAuth == sd.qeAuth
      && e.leaf == p.pckLeaf(sd.qeCertDataType, sd.qeCertData) && e.ak == p.keyFromXY(b[500..564]))
    ensures e.trusted == p.pemChain(pem)
    ensures e.leaf.Some? ==> e.pck == p.certKey(e.leaf.value)
    ensures e.leaf.None? ==> e.pck.None?
  {
    var trusted := p.pemChain(pem);
    if ParseQuote(b).Success? then
      FixedInQuote(b);
      var sd := SigDataOf(b);
      var leaf := p.pckLeaf(sd.qeCertDataType, sd.qeCertData);
      Evidence(true, RawHeaderAndBody(b).value, RawPckHash(b).value,
               sd.isvEnclaveReportSig, sd.ecdsaAttestationKey,
               Report.ReportBodyBytes(sd.qeReport), sd.qeReportSig, sd.qeAuth,
               leaf, trusted, p.keyFromXY(sd.ecdsaAttestationKey),
               if leaf.Some? then p.certKey(leaf.value) else None)
    else
      Evidence(false, [], [], [], [], [], [], [], None, trusted, None, None)
  }

  /**
    The outcome of each check, in the order `verify` makes them: the quote
    parses; a PCK leaf comes out of the certification data; the trusted
    chain decodes; the chain built from them passes `len_ok`,
    `verify_issuers` and `verify_sigs`; the attestation key is a P-256
    point and verifies the ISV report signature over the signed material;
    the leaf yields a key that verifies the QE report signature over the
    QE report; and the SHA-256 of the attestation key and the QE
    authentication data is the hashed report data.
  */
  function Outcomes<C, K>(e: Evidence<C, K>, p: Platform<C, K>): (cs: seq<bool>)
    ensures |cs| == STEP_COUNT
  {
    var cc := if e.leaf.Some? && e.trusted.Some? then Some(NewFromChain(e.trusted.value, e.leaf.value)) else None;
    [ e.parsed,
      e.leaf.Some?,
      e.trusted.Some?,
      cc.Some? && LenOk(cc.value).Success?,
      cc.Some? && Linked(Certs(cc.value), p.issued),
      cc.Some? && VerifySigs(cc.value, p.validate).Success?,
      e.ak.Some?,
      e.ak.Some? && p.ecdsaVerify(e.ak.value, e.signed, e.reportSig),
      e.pck.Some?,
      e.pck.Some? && p.ecdsaVerify(e.pck.value, e.qeReport, e.qeReportSig),
      e.parsed && p.sha256(e.attKey + e.qeAuth) == e.hashed ]
  }

  /** The outcome of each check on a quote and a PEM-encoded trusted chain. */
  function Checks<C, K>(b: seq<byte>, pem: string, p: Platform<C, K>): (cs: seq<bool>)
    ensures |cs| == STEP_COUNT
  {
    Outcomes(Gather(b, pem, p), p)
  }

  /**
    `verify`: the checks in order; the first that fails ends the
    verification and is reported.
  */
  function Verify<C, K>(b: seq<byte>, pem: string, p: Platform<C, K>): (r: Result<(), Step>)
  {
    Run(Checks(b, pem, p), STEPS)
  }

  lemma StepsDistinct()
    ensures Distinct(STEPS)
  {
    forall i, j | 0 <= i < j < STEP_COUNT
      ensures STEPS[i] != STEPS[j]
    {
      assert Rank(STEPS[i]) == i && Rank(STEPS[j]) == j;
    }
  }

  /**
    Verification is fail-fast: it succeeds exactly when every check holds,
    and it fails at check `k` exactly when the checks before `k` hold and
    check `k` does not.
  */
  lemma FailFast<C, K>(b: seq<byte>, pem: string, p: Platform<C, K>)
    ensures var cs := Checks(b, pem, p);
      (Verify(b, pem, p).Success? <==> forall j :: 0 <= j < STEP_COUNT ==> cs[j])
      && forall k :: 0 <= k < STEP_COUNT ==>
        (Verify(b, pem, p) == Failure(STEPS[k]) <==> (forall j :: 0 <= j < k ==> cs[j]) && !cs[k])
  {
    StepsDistinct();
    RunSpec(Checks(b, pem, p), STEPS);
  }

  /**
    What path validation of the trusted chain asks of it: at most ten
    certificates, the leaf issued by the first and each issued by the
    next, and the leaf validated against the last as the trust anchor.
  */
  predicate ChainAccepted<C, K>(chain: seq<C>, leaf: C, p: Platform<C, K>) {
    0 < |chain| <= DEFAULT_MAX_LEN
    && Linked([leaf] + chain, p.issued)
    && p.validate(chain[|chain| - 1], chain[..|chain| - 1], leaf) == Valid
  }

  /** Every check holds exactly when the evidence is complete and each signature and the hash match. */
  lemma AllOutcomes<C, K>(e: Evidence<C, K>, p: Platform<C, K>)
    ensures (forall j :: 0 <= j < STEP_COUNT ==> Outcomes(e, p)[j])
      <==> (e.parsed && e.leaf.Some? && e.trusted.Some? && ChainAccepted(e.trusted.value, e.leaf.value, p)
            && e.ak.Some? && p.ecdsaVerify(e.ak.value, e.signed, e.reportSig)
            && e.pck.Some? && p.ecdsaVerify(e.pck.value, e.qeReport, e.qeReportSig)
            && p.sha256(e.attKey + e.qeAuth) == e.hashed)
  {
    var cs := Outcomes(e, p);
    if e.leaf.Some? && e.trusted.Some? {
      var cc := NewFromChain(e.trusted.value, e.leaf.value);
      assert cs[3] && cs[4] && cs[5] <==> ChainAccepted(e.trusted.value, e.leaf.value, p);
    }
    if forall j :: 0 <= j < STEP_COUNT ==> cs[j] {
      assert cs[0] && cs[1] && cs[2] && cs[3] && cs[4] && cs[5] && cs[6] && cs[7] && cs[8] && cs[9] && cs[10];
    }
  }

  /** A quote that does not parse is refused at the first check. */
  lemma RejectsUnparsable<C, K>(b: seq<byte>, pem: string, p: Platform<C, K>)
    requires ParseQuote(b).Failure?
    ensures Verify(b, pem, p) == Failure(Parse)
  {
    FailFast(b, pem, p);
  }

  /**
    A quote that parses is accepted exactly when its PCK leaf and the
    trusted chain decode and the chain is accepted; the attestation key at
    500..564 is a P-256 point whose signature at 436..500 verifies over the
    header and ISV report, bytes 0..432; the leaf's key verifies the QE
    report signature at 948..1012 over the QE report at 564..948; and the
    SHA-256 of the attestation key and the QE authentication data is the
    32 bytes at 884..916.
  */
  lemma Accepts<C, K>(b: seq<byte>, pem: string, p: Platform<C, K>)
    requires ParseQuote(b).Success?
    ensures (FixedInQuote(b);
      var sd := SigDataOf(b);
      var leaf, chain, ak := p.pckLeaf(sd.qeCertDataType, sd.qeCertData), p.pemChain(pem), p.keyFromXY(b[500..564]);
      Verify(b, pem, p).Success?
      <==> (leaf.Some? && chain.Some? && ChainAccepted(chain.value, leaf.value, p)
            && ak.Some? && p.ecdsaVerify(ak.value, b[..432], b[436..500])
            && p.certKey(leaf.value).Some?
            && p.ecdsaVerify(p.certKey(leaf.value).value, b[564..948], b[948..1012])
            && p.sha256(b[500..564] + sd.qeAuth) == b[884..916]))
  {
    FailFast(b, pem, p);
    AllOutcomes(Gather(b, pem, p), p);
  }

  /**
    When the leaf extractor refuses every certification data type but the
    PCK certificate chain, an accepted quote carries that type.
  */
  lemma AcceptedCertDataIsPckChain<C, K>(b: seq<byte>, pem: string, p: Platform<C, K>)
    requires forall t: u16, d: seq<byte> :: t != QuoteSig.CertDataTypeCode(QuoteSig.PckCertChain) ==> p.pckLeaf(t, d).None?
    ensures Verify(b, pem, p).Success? ==>
      ParseQuote(b).Success? && SigDataOf(b).qeCertDataType == QuoteSig.CertDataTypeCode(QuoteSig.PckCertChain)
  {
    FailFast(b, pem, p);
    if ParseQuote(b).Success? {
      Accepts(b, pem, p);
    }
  }

  /**
    The last check of a quote that parses: the SHA-256 of the attestation
    key at 500..564 and the QE authentication data is the 32 bytes at
    884..916.
  */
  lemma HashCheck<C, K>(b: seq<byte>, pem: string, p: Platform<C, K>)
    requires ParseQuote(b).Success?
    ensures (FixedInQuote(b);
      Checks(b, pem, p)[Rank(QeHash)] <==> p.sha256(b[500..564] + SigDataOf(b).qeAuth) == b[884..916])
  {
  }

  /** The attestation key check of a quote that parses: the 64 bytes at 500..564 are a P-256 point. */
  lemma AttestationKeyCheck<C, K>(b: seq<byte>, pem: string, p: Platform<C, K>)
    requires ParseQuote(b).Success?
    ensures Checks(b, pem, p)[Rank(AttestationKey)] <==> (FixedInQuote(b); p.keyFromXY(b[500..564]).Some?)
  {
    var e := Gather(b, pem, p);
    assert Checks(b, pem, p)[Rank(AttestationKey)] == e.ak.Some?;
  }

  /**
    The quote signature check of a quote that parses: the key at 500..564
    verifies the signature at 436..500 over bytes 0..432.
  */
  lemma QuoteSignatureCheck<C, K>(b: seq<byte>, pem: string, p: Platform<C, K>)
    requires ParseQuote(b).Success?
    ensures (FixedInQuote(b);
      var ak := p.keyFromXY(b[500..564]);
      Checks(b, pem, p)[Rank(QuoteSignature)] <==> ak.Some? && p.ecdsaVerify(ak.value, b[..432], b[436..500]))
  {
    var e := Gather(b, pem, p);
    assert Checks(b, pem, p)[Rank(QuoteSignature)] == (e.ak.Some? && p.ecdsaVerify(e.ak.value, e.signed, e.reportSig));
  }

  /**
    The QE report check of a quote that parses: the PCK leaf's key
    verifies the signature at 948..1012 over the QE report at 564..948.
  */
  lemma QeReportCheck<C, K>(b: seq<byte>, pem: string, p: Platform<C, K>)
    requires ParseQuote(b).Success?
    ensures (FixedInQuote(b);
      var pck := Gather(b, pem, p).pck;
      Checks(b, pem, p)[Rank(QeReportSignature)] <==> pck.Some? && p.ecdsaVerify(pck.value, b[564..948], b[948..1012]))
  {
  }
}
