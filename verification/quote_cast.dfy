/**
  What every quote parser shares: the error type, `slice_cast` and slicing
  of the input. The source slices with `bytes[a..b]`, which panics when the
  buffer is too short; the model returns `OutOfBounds` there instead.
*/
module QuoteCast {
  import opened Bytes
  import opened Results

  /**
    `QuoteError`, completed with the variants the parsers use
    (`UnexpectedLength`, `UnknownCertDataType`) and those the model adds
    for the source's panics and unchecked `transmute`s.
  */
  datatype QuoteError =
    | InvalidMiscSelect(misc: u32)
    | InvalidFeatures(features: u64)
    | InvalidXfrm(xfrm: u64)
    | UnexpectedLength(identifier: string, got: nat, expected: nat)
    | UnknownCertDataType
    | OutOfBounds(end: nat, len: nat)
    | UnsupportedVersion(version: u16)
    | UnsupportedKeyType(keyType: u16)

  /** `slice_cast::<N>`: the slice as an `N`-byte array, if it has exactly `N` bytes. */
  function SliceCast(identifier: string, slice: seq<byte>, n: nat): (r: Result<seq<byte>, QuoteError>)
    ensures r.Success? <==> |slice| == n
    ensures r.Success? ==> r.value == slice
    ensures r.Failure? ==> r.error == UnexpectedLength(identifier, |slice|, n)
  {
    if |slice| == n then Success(slice) else Failure(UnexpectedLength(identifier, |slice|, n))
  }

  /** `bytes[from..to]`, or `OutOfBounds` where the source would panic. */
  function Take(bytes: seq<byte>, from: nat, to: nat): (r: Result<seq<byte>, QuoteError>)
    ensures r.Success? <==> from <= to <= |bytes|
    ensures r.Success? ==> |r.value| == to - from && r.value == bytes[from..to]
    ensures r.Failure? ==> r.error == OutOfBounds(to, |bytes|)
  {
    if from <= to <= |bytes| then Success(bytes[from..to]) else Failure(OutOfBounds(to, |bytes|))
  }

  /**
    `slice_cast::<N>(identifier, &bytes[at..at + N])`: the cast cannot fail
    on a slice of exactly `N` bytes, so only the slicing can.
  */
  function Read(identifier: string, bytes: seq<byte>, at: nat, n: nat): (r: Result<seq<byte>, QuoteError>)
    ensures r.Success? <==> at + n <= |bytes|
    ensures r.Success? ==> r.value == bytes[at..at + n]
    ensures r.Failure? ==> r.error == OutOfBounds(at + n, |bytes|)
  {
    match Take(bytes, at, at + n)
    case Failure(e) => Failure(e)
    case Success(slice) => SliceCast(identifier, slice, n)
  }

  // ------------------------------------------------------------------ sizes

  /** An ECDSA P-256 signature `r ∥ s` and public key `x ∥ y`: two 32-byte numbers each. */
  const SIG_SIZE: nat := 64
  const PUB_KEY_SIZE: nat := 64
  const U16_SIZE: nat := 2
  const U32_SIZE: nat := 4
  const QUOTE_SIG_DATA_LEN_SIZE: nat := U32_SIZE
  /** The quote header and the ISV enclave report, whose layouts give these sizes. */
  const QUOTE_HEADER_SIZE: nat := 48
  const REPORT_SIZE: nat := 384
  /** Where the signature data starts: after the header, the report and the length field. */
  const QUOTE_SIG_START: nat := QUOTE_HEADER_SIZE + REPORT_SIZE + QUOTE_SIG_DATA_LEN_SIZE
}
