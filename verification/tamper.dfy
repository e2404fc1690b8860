/**
  Tampered quotes: what verification does with a quote one of whose
  signed or signing fields has been overwritten with zeros, as a splice of
  a same-length run of zero bytes does. Two facts about P-256 that hold
  for every faithful platform are stated as predicates over it: the
  origin is not a point of the curve, and no signature whose `r` is zero
  is valid (section 6.4 of FIPS 186-4 asks for `0 < r < n`).
*/
module Tampering {
  import opened Bytes
  import opened Results
  import opened Quote
  import opened Verification

  /** `b` with bytes `lo..hi` replaced by zeros. */
  function ZeroOut(b: seq<byte>, lo: nat, hi: nat): (r: seq<byte>)
    requires lo <= hi <= |b|
    ensures |r| == |b|
    ensures forall i :: 0 <= i < |b| ==> r[i] == (if lo <= i < hi then 0 else b[i])
  {
    b[..lo] + Zeros(hi - lo) + b[hi..]
  }

  /** The point with both coordinates zero is not on P-256, so it is no key. */
  predicate OriginIsNoKey<C, K>(p: Platform<C, K>) {
    p.keyFromXY(Zeros(64)).None?
  }

  /** An all-zero `r ∥ s` signature verifies under no key and over no message. */
  ghost predicate ZeroSignatureInvalid<C, K(!new)>(p: Platform<C, K>) {
    forall k, m :: !p.ecdsaVerify(k, m, Zeros(64))
  }

  /** A run of bytes the zeroing overwrote is all zeros. */
  lemma ZeroedRun(b: seq<byte>, lo: nat, hi: nat)
    requires lo <= hi <= |b|
    ensures ZeroOut(b, lo, hi)[lo..hi] == Zeros(hi - lo)
  {
    var z := ZeroOut(b, lo, hi);
    forall i | 0 <= i < hi - lo
      ensures z[lo..hi][i] == Zeros(hi - lo)[i]
    {
      assert z[lo + i] == 0;
    }
  }

  /** A run of bytes the zeroing did not reach is as it was. */
  lemma KeptRun(b: seq<byte>, lo: nat, hi: nat, x: nat, y: nat)
    requires lo <= hi <= |b| && x <= y <= |b| && (y <= lo || hi <= x)
    ensures ZeroOut(b, lo, hi)[x..y] == b[x..y]
  {
    var z := ZeroOut(b, lo, hi);
    forall i | 0 <= i < y - x
      ensures z[x..y][i] == b[x..y][i]
    {
      assert z[x + i] == b[x + i];
    }
  }

  /**
    A verification that fails at a check no later than `k`: some check up
    to `k` fails.
  */
  lemma RefusedBy<C, K>(b: seq<byte>, pem: string, p: Platform<C, K>, k: nat)
    requires k < STEP_COUNT && !Checks(b, pem, p)[k]
    ensures Verify(b, pem, p).Failure? && Rank(Verify(b, pem, p).error) <= k
  {
    FailFast(b, pem, p);
    if Verify(b, pem, p).Failure? {
      var s := Verify(b, pem, p).error;
      assert Verify(b, pem, p) == Failure(STEPS[Rank(s)]);
    }
  }

  /**
    A quote whose ISV report signature, bytes 436..500, is zeroed is
    refused, at the quote signature check at the latest.
  */
  lemma ZeroedReportSigRefused<C, K(!new)>(b: seq<byte>, pem: string, p: Platform<C, K>)
    requires |b| >= 500 && ZeroSignatureInvalid(p)
    ensures var r := Verify(ZeroOut(b, 436, 500), pem, p);
      r.Failure? && Rank(r.error) <= Rank(QuoteSignature)
  {
    var z := ZeroOut(b, 436, 500);
    if ParseQuote(z).Success? {
      QuoteSignatureCheck(z, pem, p);
      ZeroedRun(b, 436, 500);
    }
    RefusedBy(z, pem, p, Rank(QuoteSignature));
  }

  /**
    A quote whose attestation key, bytes 500..564, is zeroed is refused,
    at the attestation key check at the latest.
  */
  lemma ZeroedAttestationKeyRefused<C, K>(b: seq<byte>, pem: string, p: Platform<C, K>)
    requires |b| >= 564 && OriginIsNoKey(p)
    ensures var r := Verify(ZeroOut(b, 500, 564), pem, p);
      r.Failure? && Rank(r.error) <= Rank(AttestationKey)
  {
    var z := ZeroOut(b, 500, 564);
    if ParseQuote(z).Success? {
      AttestationKeyCheck(z, pem, p);
      ZeroedRun(b, 500, 564);
    }
    RefusedBy(z, pem, p, Rank(AttestationKey));
  }

  /**
    A quote whose QE report signature, bytes 948..1012, is zeroed is
    refused, at the QE report signature check at the latest.
  */
  lemma ZeroedQeReportSigRefused<C, K(!new)>(b: seq<byte>, pem: string, p: Platform<C, K>)
    requires |b| >= 1012 && ZeroSignatureInvalid(p)
    ensures var r := Verify(ZeroOut(b, 948, 1012), pem, p);
      r.Failure? && Rank(r.error) <= Rank(QeReportSignature)
  {
    var z := ZeroOut(b, 948, 1012);
    if ParseQuote(z).Success? {
      QeReportCheck(z, pem, p);
      ZeroedRun(b, 948, 1012);
    }
    RefusedBy(z, pem, p, Rank(QeReportSignature));
  }

  /**
    Zeroing the hash the QE report carries, bytes 884..916, of a quote
    that verifies makes it refused, unless that hash was zero already:
    the attestation key and the QE authentication data it covers are left
    as they were.
  */
  lemma ZeroedHashRefused<C, K>(b: seq<byte>, pem: string, p: Platform<C, K>)
    requires Verify(b, pem, p).Success? && |b| >= 916 && b[884..916] != Zeros(32)
    ensures Verify(ZeroOut(b, 884, 916), pem, p).Failure?
  {
    var z := ZeroOut(b, 884, 916);
    FailFast(b, pem, p);
    assert Checks(b, pem, p)[10];
    HashCheck(b, pem, p);
    if ParseQuote(z).Success? {
      ZeroedHashKeepsInputs(b);
      HashCheck(z, pem, p);
    }
    RefusedBy(z, pem, p, Rank(QeHash));
  }

  /** Zeroing the hash leaves the attestation key and the QE authentication data as they were. */
  lemma ZeroedHashKeepsInputs(b: seq<byte>)
    requires ParseQuote(b).Success? && |b| >= 916 && ParseQuote(ZeroOut(b, 884, 916)).Success?
    ensures var z := ZeroOut(b, 884, 916);
      z[500..564] == b[500..564] && SigDataOf(z).qeAuth == SigDataOf(b).qeAuth && z[884..916] == Zeros(32)
  {
    var z := ZeroOut(b, 884, 916);
    QeAuthInQuote(b);
    QeAuthInQuote(z);
    ZeroedRun(b, 884, 916);
    KeptRun(b, 884, 916, 500, 564);
    KeptRun(b, 884, 916, 1012, 1014);
    var a := |SigDataOf(b).qeAuth|;
    KeptRun(b, 884, 916, 1014, 1014 + a);
  }
}
