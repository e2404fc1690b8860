/**
  The ISV enclave report inside a quote (table 5 of the ECDSA Quote Library
  API). It has the report body's layout byte for byte, so the model reads
  it as a `Report.ReportBody`; unlike the report body's accessors, its
  flag accessors reject undeclared bits instead of dropping them.
*/
module IsvReport {
  import opened Bytes
  import opened Bits
  import opened Results
  import opened Parameters
  import opened QuoteCast
  import Report

  /** `IsvEnclaveReport::misc_select`: the LE u32 at bytes 16..20, if it holds declared bits only. */
  function MiscSelectOf(r: Report.ReportBody): (m: Result<MiscSelect, QuoteError>)
    requires Report.Valid(r)
    ensures m.Success? <==> Within(WordOf(r.miscselect), MISC_ALL)
    ensures m.Success? ==> m.value == WordOf(r.miscselect)
    ensures m.Failure? ==> m.error == InvalidMiscSelect(U32(r.miscselect))
  {
    match Checked(WordOf(r.miscselect), MISC_ALL)
    case None => Failure(InvalidMiscSelect(U32(r.miscselect)))
    case Some(m) => Success(m)
  }

  /**
    `IsvEnclaveReport::attributes`: the features word (bytes 48..56) is
    checked first, then the XFRM word (bytes 56..64) against the declared
    XFRM bits `xk`.
  */
  function AttributesOf(r: Report.ReportBody, xk: Word64): (a: Result<Attributes, QuoteError>)
    requires Report.Valid(r)
    ensures a.Success? <==> Within(WordOf(r.features), FEATURES_ALL) && Within(WordOf(r.xfrm), xk)
    ensures a.Success? ==> a.value == Attributes(WordOf(r.features), WordOf(r.xfrm)) && AttrValid(a.value, xk)
    ensures !Within(WordOf(r.features), FEATURES_ALL) ==> a == Failure(InvalidFeatures(U64(r.features)))
    ensures Within(WordOf(r.features), FEATURES_ALL) && !Within(WordOf(r.xfrm), xk) ==>
      a == Failure(InvalidXfrm(U64(r.xfrm)))
  {
    match Checked(WordOf(r.features), FEATURES_ALL)
    case None => Failure(InvalidFeatures(U64(r.features)))
    case Some(f) =>
      match Checked(WordOf(r.xfrm), xk)
      case None => Failure(InvalidXfrm(U64(r.xfrm)))
      case Some(x) => Success(Attributes(f, x))
  }

  /**
    The checked accessors succeed exactly when the truncating accessors of
    the report body drop nothing, and then both give the same value.
  */
  lemma CheckedAgreesWithTruncated(r: Report.ReportBody, xk: Word64)
    requires Report.Valid(r)
    ensures MiscSelectOf(r).Success? <==> Report.MiscSelectOf(r) == WordOf(r.miscselect)
    ensures MiscSelectOf(r).Success? ==> MiscSelectOf(r).value == Report.MiscSelectOf(r)
    ensures AttributesOf(r, xk).Success? <==>
      Report.AttributesOf(r, xk).features == WordOf(r.features) && Report.AttributesOf(r, xk).xfrm == WordOf(r.xfrm)
    ensures AttributesOf(r, xk).Success? ==> AttributesOf(r, xk).value == Report.AttributesOf(r, xk)
  {
    TruncateAgrees(WordOf(r.miscselect), MISC_ALL);
    TruncateAgrees(WordOf(r.features), FEATURES_ALL);
    TruncateAgrees(WordOf(r.xfrm), xk);
  }
}
