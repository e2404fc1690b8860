/**
  The PCK certificate chain a quote is verified against: the tenant's
  trusted chain (intermediates, then the root last) and, kept apart from
  it, the leaf certificate taken from the quote. Certificates are of an
  opaque type `C`; the X.509 relations the chain is checked with (the
  issuer relation and path validation in the sense of section 6 of
  RFC 5280) are parameters.
*/
module CertChain {
  import opened Results

  /** The chain length a new chain allows, not counting the leaf. */
  const DEFAULT_MAX_LEN: nat := 10

  datatype CertChain<C> = CertChain(chain: seq<C>, leaf: C, maxLen: nat)

  /** The reasons a chain is refused, one per message of `VerifyError` the checks produce. */
  datatype ChainError =
    | TooLong
    | InvalidIssuer
    | NoCerts
    | InvalidSignature
    | Undetermined

  /** The certificates in issuing order: the leaf, then the trusted chain. */
  function Certs<C>(cc: CertChain<C>): seq<C> {
    [cc.leaf] + cc.chain
  }

  /** `CertChain::new_from_chain`: the leaf is kept apart and at most ten trusted certificates are allowed. */
  function NewFromChain<C>(c: seq<C>, leaf: C): (cc: CertChain<C>)
    ensures Certs(cc) == [leaf] + c
    ensures LenOk(cc).Success? <==> |c| <= 10
  {
    CertChain(c, leaf, DEFAULT_MAX_LEN)
  }

  /** `CertChain::set_max_len`: the certificates stay as they were. */
  function SetMaxLen<C>(cc: CertChain<C>, len: nat): (r: CertChain<C>)
    ensures Certs(r) == Certs(cc)
    ensures LenOk(r).Success? <==> |cc.chain| <= len
  {
    cc.(maxLen := len)
  }

  /** `CertChain::len`: the number of certificates, the leaf included. */
  function Len<C>(cc: CertChain<C>): (n: nat)
    ensures n == |Certs(cc)| && n >= 1
  {
    |cc.chain| + 1
  }

  /** `CertChain::len_ok`: the limit applies to the trusted chain alone, not to the leaf. */
  function LenOk<C>(cc: CertChain<C>): (r: Result<(), ChainError>)
    ensures r.Success? <==> Len(cc) <= cc.maxLen + 1
    ensures r.Failure? ==> r.error == TooLong
  {
    if |cc.chain| > cc.maxLen then Failure(TooLong) else Success(())
  }

  /** Every certificate but the last is issued by the one after it. */
  predicate Linked<C>(certs: seq<C>, issued: (C, C) -> bool) {
    forall i :: 0 <= i < |certs| - 1 ==> issued(certs[i + 1], certs[i])
  }

  /** The same linkage, as a walk down the list. */
  predicate LinkedFrom<C>(certs: seq<C>, issued: (C, C) -> bool)
    decreases |certs|
  {
    |certs| < 2 || (issued(certs[1], certs[0]) && LinkedFrom(certs[1..], issued))
  }

  lemma {:induction false} LinkedFromIsLinked<C>(certs: seq<C>, issued: (C, C) -> bool)
    ensures LinkedFrom(certs, issued) <==> Linked(certs, issued)
    decreases |certs|
  {
    if |certs| >= 2 {
      LinkedFromIsLinked(certs[1..], issued);
      if Linked(certs, issued) {
        assert Linked(certs[1..], issued) by {
          forall i | 0 <= i < |certs[1..]| - 1
            ensures issued(certs[1..][i + 1], certs[1..][i])
          {
            assert issued(certs[i + 2], certs[i + 1]);
          }
        }
      }
      if LinkedFrom(certs, issued) {
        forall i | 0 <= i < |certs| - 1
          ensures issued(certs[i + 1], certs[i])
        {
          if i > 0 {
            assert certs[1..][i - 1] == certs[i];
          }
        }
      }
    }
  }

  /**
    `CertChain::verify_issuers`: walks the leaf and then the trusted chain,
    checking each certificate against the one after it, and stops at the
    first pair that is not an issuer relationship.
  */
  method VerifyIssuers<C>(cc: CertChain<C>, issued: (C, C) -> bool) returns (r: Result<(), ChainError>)
    ensures r.Success? <==> Linked(Certs(cc), issued)
    ensures r.Failure? ==> r.error == InvalidIssuer
  {
    var certs := Certs(cc);
    var i := 0;
    while i < |certs|
      invariant 0 <= i <= |certs|
      invariant forall j :: 0 <= j < i && j < |certs| - 1 ==> issued(certs[j + 1], certs[j])
    {
      if i + 1 < |certs| && !issued(certs[i + 1], certs[i]) {
        return Failure(InvalidIssuer);
      }
      i := i + 1;
    }
    return Success(());
  }

  /** A leaf with no trusted certificates has nothing to be linked to, and passes. */
  lemma EmptyChainLinked<C>(leaf: C, maxLen: nat, issued: (C, C) -> bool)
    ensures Linked(Certs(CertChain([], leaf, maxLen)), issued)
  {
  }

  /**
    Dropping certificates from the root end keeps the links, so a chain cut
    short passes the issuer check; it is the signature check, whose trust
    anchor is the last certificate, that refuses it.
  */
  lemma TruncatedStillLinked<C>(cc: CertChain<C>, k: nat, issued: (C, C) -> bool)
    requires k <= |cc.chain| && Linked(Certs(cc), issued)
    ensures Linked(Certs(cc.(chain := cc.chain[..k])), issued)
  {
    var short := Certs(cc.(chain := cc.chain[..k]));
    assert short == Certs(cc)[..k + 1];
  }

  /** What path validation reports: valid, invalid, or that it could not decide. */
  datatype PathOutcome = Valid | Invalid | Error

  /**
    `CertChain::verify_sigs`: the last certificate of the trusted chain is
    the only trust anchor, the others are untrusted intermediates, and the
    leaf is validated against them; `validate(root, intermediates, leaf)`
    is the X.509 path validation.
  */
  function VerifySigs<C>(cc: CertChain<C>, validate: (C, seq<C>, C) -> PathOutcome): (r: Result<(), ChainError>)
    ensures |cc.chain| == 0 ==> r == Failure(NoCerts)
    ensures |cc.chain| > 0 ==>
      var root, inter := cc.chain[|cc.chain| - 1], cc.chain[..|cc.chain| - 1];
      (r.Success? <==> validate(root, inter, cc.leaf) == Valid)
      && (validate(root, inter, cc.leaf) == Invalid ==> r == Failure(InvalidSignature))
      && (validate(root, inter, cc.leaf) == Error ==> r == Failure(Undetermined))
  {
    if |cc.chain| == 0 then Failure(NoCerts)
    else
      var root := cc.chain[|cc.chain| - 1];
      match validate(root, cc.chain[..|cc.chain| - 1], cc.leaf)
      case Valid => Success(())
      case Invalid => Failure(InvalidSignature)
      case Error => Failure(Undetermined)
  }

  /**
    Appending a certificate to the trusted chain makes it the one trust
    anchor and turns the previous root into an intermediate; the length
    limit plays no part in the signature check.
  */
  lemma SigsTrustLastOnly<C>(inter: seq<C>, root: C, leaf: C, m: nat, n: nat, validate: (C, seq<C>, C) -> PathOutcome)
    ensures VerifySigs(CertChain(inter + [root], leaf, m), validate).Success?
        <==> validate(root, inter, leaf) == Valid
    ensures VerifySigs(CertChain(inter + [root], leaf, m), validate)
         == VerifySigs(CertChain(inter + [root], leaf, n), validate)
  {
    assert (inter + [root])[..|inter|] == inter;
  }
}
