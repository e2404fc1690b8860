# enarx/sgx core, modelled in Dafny

A functional model of the byte-exact core of the `sgx` Rust crate. The
crate builds and signs Intel SGX enclaves and parses and verifies their
DCAP attestation quotes. The model has six parts.

- **Measurement.** `Hasher` (hasher.dfy) computes MRENCLAVE the way the
  processor does (section 41.3 of the Intel SDM, volume 3D).
  - The digest is the exact byte stream fed to it (digest.dfy): a
    64-byte ECREATE record, then one 64-byte EADD record per page loaded.
    Each measured page then adds sixteen 320-byte EEXTEND records.
  - SHA-256 is a function parameter applied to that stream.
  - The page records come from page.dfy (SECINFO, page classes, page flags
    and permissions) and tcs.dfy (the TCS page).
- **SIGSTRUCT.** SigAuthor, SigBody and Sigstruct (author.dfy, body.dfy,
  signature.dfy) hold the 128-byte author block, the 128-byte body block
  and the 1808-byte SIGSTRUCT, each with its layout and byte round trips.
  - Crypto (crypto.dfy) models the rcrypto RS256 key: the 3072-bit width
    check, the signed message `author ∥ body`, and the EINIT auxiliaries
    `q1 = ⌊s²/m⌋` and `q2 = ⌊s·(s² mod m)/m⌋`. These are exact arithmetic
    on naturals.
  - Each number is stored as its 384-byte little-endian image.
  - RSASSA-PKCS1-v1_5 (section 8.2 of RFC 8017) and key generation are
    function parameters.
- **Parameters and bit sets.** Bits (bits.dfy) models bitflags words as
  sequences of booleans. The complement works within the declared flags
  only.
  - Parameters (parameters.dfy) holds MISCSELECT, the ATTRIBUTES features,
    `Masked<T>` with its masked equality, and the ordering of ATTRIBUTES.
  - XFRM's declared bits come from an external crate and are a parameter
    `xk`.
  - Secs (secs.dfy) derives the SECS page, enabling `data & mask`.
- **Quote parsing.** These modules parse a version-3 DCAP quote (Appendix
  A.4 of the Intel SGX ECDSA Quote Library API):
  - QuoteCast (quote_cast.dfy): the exact-length cast.
  - QuoteHeader (quote_header.dfy): the 48-byte header.
  - Report and IsvReport (report.dfy, quote_report.dfy): the 384-byte
    report body, with truncating and checked decoders.
  - QuoteSig (quote_sig.dfy): the signature data.
  - Quote (quote.dfy): the whole quote.
- **Verification.** Verification (verify.dfy) checks a quote against a
  trusted PCK chain, fail-fast, over the CertChain rules (cert_chain.dfy)
  and a generic fail-fast runner (pipeline.dfy).
  - Every cryptographic and X.509 primitive is a field of a `Platform`
    parameter.
  - Tampering (tamper.dfy) states what happens when a signed or signing
    field of a quote is zeroed.
- **SSA.** Ssa (ssa.dfy) decodes the EXITINFO word of a State Save Area
  frame and gives the frame's layout.

Results, Bytes and Layout (results.dfy, bytes.dfy, layout.dfy) are shared
helpers:
- `Result`/`Option`;
- little- and big-endian integers;
- records as lists of field sizes, with their offsets, concatenation and
  splitting.

Where the source panics on a slice out of range, the model returns the
explicit failure `OutOfBounds`. Where the source reads the quote version or
the key type with an unchecked `transmute` into an enum, a code the enum
does not declare is undefined behaviour in Rust, not a panic; the model
rejects such codes with `UnsupportedVersion` or `UnsupportedKeyType`. The
crate's error enum has none of these three variants.

Two places where the model makes a choice the code leaves open:
- **SECS fields.** src/page/secs.rs reads `pid` and `svn` from
  `Parameters`, whose fields are `isv_prod_id` and `isv_svn`. The model
  reads those two.
- **Quote parser used by verification.** Verification in
  src/attestation_types/verify/mod.rs reads the quote with an older parser
  that is not part of this model. The model verifies the quote as the
  canonical parser in src/quote reads it.
  - The two raw byte ranges the older parser supplies are bytes 0..432 and
    884..916 (`RawHeaderAndBody`, `RawPckHash`).
  - A failure of either range happens only when parsing fails, so it is
    folded into the parse step.

## Model

| member | source | states |
|---|---|---|
| Bits.TruncateAgrees | src/report.rs:71-73 | truncating narrowing drops nothing exactly when checked narrowing succeeds, and truncating twice is truncating once |
| Bits.NotLaws | src/parameters/attributes/mod.rs:45-91 | complement within the declared flags stays within them, is an involution, is disjoint from and together with the value covers every declared flag, obeys De Morgan, and xor is `(a \| b) & !(a & b)` |
| Bits.WordBytesRoundTrip | src/report.rs:71-82 | a bit word and its little-endian byte image determine each other |
| Bits.ValueInjective | src/parameters/attributes/mod.rs:10 | words of one width are equal exactly when their unsigned values are, so comparing values orders words faithfully |
| Parameters.FeatureBits | src/parameters/attributes/features.rs:3-35 | the declared features are bits 0, 1, 2, 4, 5, 6 and 7 and no others, so all features together are 0xF7 |
| Parameters.MiscBits | src/parameters/mod.rs:20-30 | MISCSELECT declares EXINFO, bit 0, and nothing else |
| Parameters.AttrBytes | src/parameters/attributes/mod.rs:93-96 | the ATTRIBUTES image is 16 bytes, as its layout test requires |
| Parameters.DefaultParameters | src/parameters/masked.rs:16-41 | the default parameters have zero ids and default values whose masks enforce every declared bit |
| Parameters.FromValueMaskIsAll | src/parameters/masked.rs:36-41 | the mask `v \| !v` of a value made masked is every declared flag, whatever the value |
| Parameters.MiscMatchesIff | src/parameters/masked.rs:44-53 | a masked MISCSELECT equals a value exactly when the two agree on every enforced bit |
| Parameters.AttrMatchesIff | src/parameters/masked.rs:44-53 | masked ATTRIBUTES equal a value exactly when features and XFRM agree on every enforced bit |
| Parameters.MiscFromMatchesIff | src/parameters/masked.rs:29-53 | a masked MISCSELECT made from `v` equals exactly `v` |
| Parameters.AttrFromMatchesIff | src/parameters/masked.rs:29-53 | masked ATTRIBUTES made from `v` equal exactly `v` |
| Parameters.EmptyMaskMatchesEverything | src/parameters/masked.rs:50-52 | with nothing enforced, every value matches |
| Parameters.AttrNotLaws | src/parameters/attributes/mod.rs:45-91 | ATTRIBUTES complement is componentwise within the declared bits: closed, an involution, complementary, De Morgan, and xor through and, or and not |
| Parameters.AttrLessIsStrictTotalOrder | src/parameters/attributes/mod.rs:10-14 | the derived ordering, features first and then XFRM, is irreflexive, transitive and total on distinct values |
| Page.ClassOf | src/page/class.rs:9-23 | exactly the bytes 0 to 4 name a page class |
| Page.ClassCodeRoundTrip | src/page/class.rs:9-23 | the discriminants and their decoding are inverse to each other, so distinct classes have distinct codes |
| Page.WordValues | src/page/flags.rs:3-17 | READ, WRITE, EXECUTE, PENDING, MODIFIED and RESTRICTED are the bits 1, 2, 4, 8, 16 and 32, and all flags together are 0x3F |
| Page.FlagsBound | src/page/flags.rs:3-17 | bits 6 and 7 are never set in a flag value, so its byte is at most 0x3F |
| Page.SecInfoReg | src/page/sinfo.rs:35-41 | a regular-page SECINFO has class REG and carries exactly the given flags |
| Page.SecInfoTcs | src/page/sinfo.rs:44-50 | a TCS SECINFO has class TCS and carries no flags |
| Page.SecInfoBytes | src/page/sinfo.rs:13-21 | the 64-byte SECINFO image holds the flags in byte 0, the class in byte 1 and zeros after them |
| Page.SecInfoRoundTrip | src/page/sinfo.rs:13-59 | decoding a SECINFO image gives the record back, and every image that decodes is the image of what it decodes to |
| Page.MeasuredSecInfoShape | src/page/sinfo.rs:35-50 | the 48 bytes the measurement takes of a regular-page SECINFO are its flags, the code 2 and 46 zeros, and of a TCS SECINFO 0, 1 and 46 zeros |
| Secs.ParametersSecs | src/page/secs.rs:18-35 | the enabled MISCSELECT and ATTRIBUTES bits are exactly those the author asks for and the platform supports; size, base, SSA frame size, product id and security version are passed through |
| Secs.SecsOfFullMasks | src/page/secs.rs:13-23 | parameters made from plain values enable exactly those values |
| Secs.SecsOfEmptyMasks | src/page/secs.rs:13-25 | a platform that supports nothing enables nothing, whatever the author asks for |
| Secs.SecsBytes | src/page/secs.rs:42-59 | the SECS page image is 4096 bytes |
| Secs.SecsLayout | src/page/secs.rs:80-97 | the fields of the SECS page start at 0, 8, 16, 20, 24, 48, 64, 96, 128, 160, 256, 258, 260 and 288 of a 4096-byte page |
| Secs.SecsRoundTrip | src/page/secs.rs:44-59 | decoding a SECS image gives the SECS back, and every image that decodes is the image of what it decodes to |
| Secs.AttrBytesRoundTrip | src/parameters/attributes/mod.rs:9-14 | the 16-byte ATTRIBUTES image splits back into the features and XFRM words it was built from |
| Tcs.New | src/types/tcs.rs:51-66 | a new TCS enters at the given offset with the given SSA frames, has no flags, zero state, current SSA, AEP and segment bases, all-ones segment limits and zero padding |
| Tcs.TcsLayout | src/types/tcs.rs:69-85 | the TCS fields start at 0, 8, 16, 24, 28, 32, 40, 48, 56, 64, 68 and 72 of a 4096-byte page |
| Tcs.TcsRoundTrip | src/types/tcs.rs:22-37 | decoding a TCS image gives the TCS back, and every image whose flag word holds declared flags only is the image of what it decodes to |
| Tcs.TcsEncodeDecode | src/types/tcs.rs:22-37 | decoding the image of a TCS gives that TCS |
| Tcs.TcsDecodeEncode | src/types/tcs.rs:22-37 | re-encoding a decoded TCS gives the image back |
| Tcs.FieldAt | src/types/tcs.rs:69-85 | each field image sits between its offset and the next one in the page |
| Tcs.NewImage | src/types/tcs.rs:51-85 | the page of a new TCS holds the SSA offset at 16, the frame count at 28, the entry at 32, 0xFFFFFFFF at 64 and 68, and zeros everywhere else |
| Digest.ChainLaws | src/crypto/mod.rs:9-21 | chaining is updating; feeding in pieces is feeding their concatenation; what was fed before stays a prefix and the new bytes follow it; feeding nothing changes nothing |
| Hasher.New | src/signature/hasher.rs:27-39 | a new hasher has fed exactly 64 bytes: the ECREATE tag, the SSA frame count as a u32, the size as a u64, and 44 zero bytes |
| Hasher.Load | src/signature/hasher.rs:45-85 | a segment is refused exactly when it is not a whole number of pages, and an accepted one only appends to what was fed before |
| Hasher.LoadPages | src/signature/hasher.rs:45-85 | the page loop, with the chunk loop inside it, feeds exactly the records the recursive definition of loading describes |
| Hasher.FeedPage | src/signature/hasher.rs:62-81 | one page feeds its EADD record followed, when measured, by its EEXTEND records |
| Hasher.FeedChunks | src/signature/hasher.rs:71-78 | the chunk loop feeds one EEXTEND record per 256 bytes, at offsets 256 apart |
| Hasher.TagsEncode | src/signature/hasher.rs:31-54 | the 8-byte tags fed are the little-endian encodings of the ECREATE, EADD and EEXTEND constants, which spell the instruction names in ASCII |
| Hasher.ChunksLogLength | src/signature/hasher.rs:71-78 | every 256 bytes extended are recorded in 320 |
| Hasher.PagesLogLength | src/signature/hasher.rs:62-82 | every page loaded is recorded in 64 bytes, plus 5120 when measured |
| Hasher.LoadLength | src/signature/hasher.rs:57-84 | loading whole pages succeeds and grows the fed stream by 64 bytes per page, plus sixteen 320-byte records per measured page |
| Hasher.PagesLogAppend | src/signature/hasher.rs:62-82 | the records of `a ++ b` are those of `a` followed by those of `b` loaded right after it |
| Hasher.LoadSplit | src/signature/hasher.rs:45-85 | loading two page-aligned segments one after the other is loading their concatenation at once |
| Hasher.PagesLogPage | src/signature/hasher.rs:62-82 | page `k` of a segment is recorded at offset `offset + 4096 k`, right after the records of the `k` pages before it |
| Hasher.ChunksLogChunk | src/signature/hasher.rs:71-78 | chunk `j` is recorded in the `j`-th 320-byte slot as the EEXTEND tag, offset `offset + 256 j`, 48 zero bytes and the chunk itself |
| Hasher.PageLogShape | src/signature/hasher.rs:64-79 | a page's records start with the EADD tag, the offset and the 48 measured SECINFO bytes, and when measured its sixteen EEXTEND records follow in chunk order |
| Hasher.LoadEmpty | src/signature/hasher.rs:57-84 | an empty segment is accepted and feeds nothing |
| Hasher.LoadPageSizes | src/signature/hasher.rs:117-131 | every proper suffix of a page is refused with `InvalidSize`, and a whole page is accepted |
| Hasher.SinglePage | src/signature/hasher.rs:62-82 | a one-page segment feeds exactly that page's records |
| Hasher.Measurement | src/signature/hasher.rs:19-22 | the measurement of two loaded segments is the hash of the ECREATE record followed by both segments' records |
| Hasher.NextPow2 | src/crypto/mod.rs:54 | the result is a power of two, at least the input and less than twice it |
| Hasher.NextPow2Least | src/crypto/mod.rs:54 | no smaller power of two reaches the input |
| Hasher.KnownAnswerResult | src/crypto/mod.rs:42-62 | the known-answer measurement succeeds exactly on binaries of one or more whole pages, and is the hash of the ECREATE record, the measured TCS page at 0 and the measured read-write-execute pages from 4096 |
| SigAuthor.New | src/signature/author.rs:27-36 | a new author block has the two constant headers, vendor 0, the given date and software-defined value, and zero reserved words |
| SigAuthor.AuthorLayout | src/signature/author.rs:39-49 | the author block is 128 bytes with fields at 0, 16, 20, 24, 40 and 44 |
| SigAuthor.AuthorRoundTrip | src/signature/author.rs:8-22 | an author block and its 128-byte image determine each other |
| SigAuthor.HeaderValues | src/signature/author.rs:29-32 | read big-endian, the header images are the two 128-bit constants the source stores with `u128::from_be` |
| SigAuthor.NewImage | src/signature/author.rs:51-69 | the image of a new author block holds the headers at 0 and 24, a zero vendor, the date at 20, the software-defined value at 40 and zeros from 44 |
| SigBody.Accessors | src/signature/body.rs:42-67 | `mrenclave` and `parameters` give back what `new` was given, and a body with zero reserved regions is rebuilt by `new` from its own accessors |
| SigBody.BodyLayout | src/signature/body.rs:70-81 | the body block is 128 bytes with fields at 0, 8, 28, 60, 92, 124 and 126 |
| SigBody.BodyImage | src/signature/body.rs:15-25 | in the signed image of a body the masked MISCSELECT, masked ATTRIBUTES, measurement and ISV fields sit at their offsets |
| Sigstruct.New | src/signature/mod.rs:44-61 | the key's error comes back unchanged; otherwise the signature keeps author and body, stores the key's numbers verbatim and zeros its reserved bytes |
| Sigstruct.Resign | src/signature/mod.rs:44-69 | re-signing a signature's own author and body reproduces it exactly when its reserved bytes are zero and the key returns the numbers it holds, which every signature `new` made satisfies |
| Sigstruct.SigLayout | src/signature/mod.rs:72-84 | SIGSTRUCT is 1808 bytes with fields at 0, 128, 512, 516, 900, 1028, 1040 and 1424 |
| Sigstruct.SigImage | src/signature/mod.rs:29-40 | in the SIGSTRUCT image the two signed blocks, the RSA numbers, the exponent and the reserved bytes sit at their offsets |
| Sigstruct.SignedWithRs256 | src/signature/mod.rs:44-61 | signing with an RS256 key signs SHA-256 of the author image followed by the body image, and the result holds the key's modulus and exponent and the returned signature |
| Crypto.NewKey | src/crypto/rcrypto.rs:41-46 | a key is accepted exactly when its modulus has at most 3072 bits, and otherwise panics |
| Crypto.Generate | src/crypto/rcrypto.rs:51-56 | generation asks for a 3072-bit key with the given exponent, passes a generator error through and then applies the width check |
| Crypto.MessageHash | src/crypto/rcrypto.rs:71 | the signed hash is SHA-256 of the author bytes followed by the body bytes |
| Crypto.ArrFromBig | src/crypto/rcrypto.rs:9-14 | a number has a 384-byte little-endian image exactly when it is below 256^384, and the image reads back as the number |
| Crypto.MinimalLEValue | src/crypto/rcrypto.rs:11 | the shortest little-endian encoding reads back as the number |
| Crypto.MinimalLELength | src/crypto/rcrypto.rs:11-12 | the shortest encoding fits in `w` bytes exactly when the number is below 256^w |
| Crypto.ArrFromBigAsWritten | src/crypto/rcrypto.rs:9-14 | when the copy does not panic, the array is 384 bytes and reads back as the number |
| Crypto.ArrFromBigAsWrittenPanics | src/crypto/rcrypto.rs:9-14 | as written, the copy succeeds exactly for numbers from 256^383 to below 256^384, agrees with the padded image there, and panics on every smaller number although it has an image |
| Crypto.ArrFromBigOne | src/crypto/rcrypto.rs:9-14 | the number 1 makes the code as written panic, while it has a 384-byte image |
| Crypto.Pack | src/crypto/rcrypto.rs:84-90 | the corrected packing (zero-padded images, see Findings): it succeeds exactly when every number fits its field, and then each field reads back as its number |
| Crypto.PackAsWritten | src/crypto/rcrypto.rs:84-90 | as written, packing succeeds exactly when the signature, modulus and both auxiliaries are full width (from 256^383 to below 256^384) and the exponent fits a u32, and then packs what the corrected packing packs; otherwise it panics |
| Crypto.Sign | src/crypto/rcrypto.rs:68-91 | the corrected signing (zero-padded images, see Findings): a signing error passes through, a signature of the wrong length panics, and a result holds the returned signature read big-endian, the modulus and the exponent |
| Crypto.SignAsWritten | src/crypto/rcrypto.rs:68-91 | as written: a signing error passes through, a signature of the wrong length panics, and a result holds a full-width signature read big-endian, a full-width modulus and the exponent |
| Crypto.Auxiliaries | src/crypto/rcrypto.rs:78-82 | `q1·m + (s² mod m) = s²` with the remainder below `m`, and for a signature below the modulus both auxiliaries are at most `s`, and below it when `s` is positive |
| Crypto.SignPacks | src/crypto/rcrypto.rs:78-90 | past the primitive, the corrected signing packs `s`, `m`, `e`, `q1 = s² / m` and `q2 = s·(s² mod m) / m` |
| Crypto.SignSucceeds | src/crypto/rcrypto.rs:68-91 | with an accepted key, a u32 exponent and a 384-byte signature below the modulus, the corrected signing succeeds and stores exactly those numbers |
| Crypto.SignAsWrittenPanics | src/crypto/rcrypto.rs:78-90 | on those same inputs the code as written returns exactly when `s`, `m`, `q1` and `q2` are all at least 256^383, and then returns what the corrected signing returns; otherwise it panics where the corrected signing succeeds |
| Crypto.SignOfOne | src/crypto/rcrypto.rs:79-85 | a signature whose value is 1, under any accepted key with a larger modulus, makes the code as written panic while the corrected signing succeeds |
| QuoteCast.SliceCast | src/quote/cast.rs:6-13 | the cast succeeds exactly when the slice has the target length and returns it unchanged; otherwise it reports `UnexpectedLength` with the identifier, the length found and the length expected |
| QuoteCast.Take | src/quote/mod.rs:127-128 | slicing `bytes[from..to]` succeeds exactly when `from <= to <= len` and yields those bytes; where the source panics the model reports `OutOfBounds` |
| QuoteCast.Read | src/quote/signature.rs:92-97 | a fixed-size field read at `at` succeeds exactly when `at + n` is within the buffer and yields bytes `at..at + n`; the length cast itself cannot fail |
| Quote.Sizes | src/quote/sizes.rs:9-17 | the header and report sizes are the sums of their field layouts (48 and 384), the length field is a u32, and the signature data starts at byte 436 |
| QuoteHeader.HeaderLayout | src/quote/header.rs:87-99 | the header is 48 bytes with fields at 0, 2, 4, 8, 10, 12 and 28 |
| QuoteHeader.HeaderRoundTrip | src/quote/header.rs:37-46 | the 48-byte image and the header record determine each other: decode then encode and encode then decode are both the identity |
| QuoteHeader.HeaderFieldsAt | src/quote/header.rs:37-46 | every header field is exactly the byte range its offset gives it in the image |
| QuoteHeader.Version | src/quote/header.rs:50-52 | the version is the LE u16 of bytes 0..2; 3 is V3, and every other value, undefined behaviour in the source, is rejected with `UnsupportedVersion` carrying it |
| QuoteHeader.KeyTypeOf | src/quote/header.rs:56-58 | the key type is the LE u16 of bytes 2..4; 2 is ES256, 3 is ES384, and every other value, undefined behaviour in the source, is rejected with `UnsupportedKeyType` |
| QuoteHeader.CodesRoundTrip | src/quote/header.rs:17-31 | a header carrying the enum discriminant of a version or key type reads back as that version or key type |
| QuoteHeader.SvnFields | src/quote/header.rs:61-68 | the QE and PCE SVNs are the LE u16 numbers at bytes 8 and 10, and re-encoding them gives those bytes back |
| Report.ReportBodyLayout | src/report.rs:117-132 | the report body is 384 bytes with its thirteen fields at the offsets the layout test lists |
| Report.ReportLayout | src/report.rs:104-110 | the REPORT is 512 bytes: body at 0, key id at 384, MAC at 416, then padding to the 512-byte alignment |
| Report.ReportBodyRoundTrip | src/report.rs:38-50 | the two `transmute` conversions between the body and its 384 bytes are inverse to each other |
| Report.ReportBodyFields | src/report.rs:22-36 | every named field of a decoded body is the byte range of the image its offset gives |
| Report.MiscSelectOf | src/report.rs:71-73 | MISCSELECT keeps every declared bit of the LE u32 and never fails |
| Report.AttributesOf | src/report.rs:80-84 | features and XFRM keep every declared bit of their LE u64 words; the result holds declared bits only |
| Report.IsvFields | src/report.rs:87-94 | product id and security version are the LE u16 numbers at bytes 256 and 258, and re-encoding them gives those bytes back |
| IsvReport.MiscSelectOf | src/quote/report.rs:50-53 | the quote's MISCSELECT succeeds exactly when the word holds declared bits only and is then that word; otherwise `InvalidMiscSelect` with the raw number |
| IsvReport.AttributesOf | src/quote/report.rs:56-63 | features are checked before XFRM; success exactly when both hold declared bits only, `InvalidFeatures` when the features do not, `InvalidXfrm` when only the XFRM does not |
| IsvReport.CheckedAgreesWithTruncated | src/quote/report.rs:50-63 | the quote's checked accessors succeed exactly when the report body's truncating accessors drop nothing, and then both return the same value |
| QuoteSig.CertDataTypeOf | src/quote/signature.rs:37-52 | the codes 1 to 7 and nothing else name a certification data type; any other code is `UnknownCertDataType` |
| QuoteSig.CertDataTypeRoundTrip | src/quote/signature.rs:16-52 | the enum discriminants and the conversion from u16 are inverse to each other |
| QuoteSig.CertType | src/quote/signature.rs:155-157 | the accessor interprets the raw type on request and, when it succeeds, the type's discriminant is the stored code |
| QuoteSig.SigDataLayout | src/quote/signature.rs:88-120 | the fields follow each other at 0, 64, 128, 512, 576 and 578, the variable ones at 578 and 584 + a, and the whole takes 584 + a + c bytes |
| QuoteSig.ParseSigData | src/quote/signature.rs:85-132 | parsing succeeds exactly when the buffer holds the fixed records, then the `a` bytes its u16 length announces, then type and u32 length `c`, then `c` bytes; every failure is an out-of-bounds read; each field is the byte range at its running offset |
| QuoteSig.SigDataRoundTrip | src/quote/signature.rs:85-132 | the encoding of any well-formed signature data, followed by any bytes, parses back to that signature data |
| QuoteSig.ParsedPrefix | src/quote/signature.rs:85-132 | what the parser accepts is the encoding of what it returns followed by bytes it ignores |
| Quote.ParseBodyV3 | src/quote/mod.rs:116-138 | the body parses exactly when the report fits at 48..432 and the signature data at 436..436 + len parses, `len` being the LE u32 at 432..436; the report and the signature data are those byte ranges decoded |
| Quote.ParseBody | src/quote/mod.rs:58-66 | the body is parsed as version 3 when the header says so; another version is refused before the body is looked at |
| Quote.ParseQuote | src/quote/mod.rs:35-50 | a buffer shorter than the header is out of bounds, a version other than 3 (undefined behaviour in the source) is rejected, and otherwise the quote parses exactly when its body does, with the header being bytes 0..48 |
| Quote.TrailingIgnored | src/quote/mod.rs:127-128 | bytes after the signature data do not change what a quote parses to |
| Quote.QuoteRoundTrip | src/quote/mod.rs:35-50 | a version-3 quote built from a header, a report and signature data, followed by any bytes, parses back to exactly those parts with the signature data length in between |
| CertChain.NewFromChain | src/attestation_types/verify/cert_chain.rs:19-25 | the leaf is kept apart and put in front of the trusted chain, and the new chain passes the length check exactly when it holds at most ten trusted certificates |
| CertChain.SetMaxLen | src/attestation_types/verify/cert_chain.rs:28-30 | the certificates are unchanged and the length check then passes exactly when the trusted chain is no longer than the new limit |
| CertChain.Len | src/attestation_types/verify/cert_chain.rs:33-35 | the length counts every certificate including the leaf, so it is at least one |
| CertChain.LenOk | src/attestation_types/verify/cert_chain.rs:38-45 | the check passes exactly when the length including the leaf is at most the limit plus one, because the limit applies to the trusted chain alone; failure is `TooLong` |
| CertChain.VerifyIssuers | src/attestation_types/verify/cert_chain.rs:49-68 | the walk succeeds exactly when every certificate, the leaf first, is issued by the one after it; failure is `InvalidIssuer` |
| CertChain.LinkedFromIsLinked | src/attestation_types/verify/cert_chain.rs:55-66 | checking each certificate against the next one step by step is the same as the all-pairs issuer condition |
| CertChain.EmptyChainLinked | src/attestation_types/verify/cert_chain.rs:56-60 | a leaf with an empty trusted chain has no parent to check and passes the issuer walk |
| CertChain.TruncatedStillLinked | src/attestation_types/verify/mod.rs:144-147 | dropping trusted certificates from the root end keeps every issuer link, so it is not the issuer walk that refuses an incomplete chain |
| CertChain.VerifySigs | src/attestation_types/verify/cert_chain.rs:72-111 | an empty trusted chain fails with `NoCerts`; otherwise the last certificate is the only trust anchor, the rest are untrusted intermediates, and the result follows path validation: valid passes, invalid is `InvalidSignature`, an undetermined outcome is `Undetermined` |
| CertChain.SigsTrustLastOnly | src/attestation_types/verify/cert_chain.rs:75-91 | appending a certificate makes it the only trust anchor and the old root an intermediate, and the length limit plays no part in the signature check |
| Pipeline.FirstFailureSpec | src/attestation_types/verify/mod.rs:58-112 | the first failing check found from position `k` on is one that fails, after checks that all hold, and there is none exactly when all hold |
| Pipeline.RunSpec | src/attestation_types/verify/mod.rs:58-112 | a fail-fast run succeeds exactly when every check holds, and it reports check `k` exactly when the checks before `k` hold and `k` does not |
| Verification.Rank | src/attestation_types/verify/mod.rs:61-109 | every step has a position among the eleven checks, and the order lists it there |
| Verification.FixedInQuote | src/quote/mod.rs:74-90 | in a quote that parses, the ISV report signature is bytes 436..500, the attestation key 500..564, the QE report 564..948 with its hashed report data at 884..916, and the QE report signature 948..1012 |
| Verification.QeAuthInQuote | src/quote/signature.rs:109-113 | in a quote that parses, the QE authentication data follows its LE u16 length at 1012..1014 |
| Verification.CertDataInQuote | src/quote/signature.rs:114-122 | in a quote that parses, the certification data follows its LE u32 length at 1016 + a..1020 + a |
| Verification.RawHeaderAndBody | src/attestation_types/verify/mod.rs:59-61 | the attestation key signs the header followed by the ISV enclave report, bytes 0..432; a shorter quote has none |
| Verification.RawPckHash | src/attestation_types/verify/mod.rs:63-64 | the hashed material is 32 bytes, at 884..916; a shorter quote has none |
| Verification.Gather | src/attestation_types/verify/mod.rs:61-97 | the evidence is complete exactly when the quote parses, and then each signed, signing and hashed part is the byte range of the quote named above; the leaf is extracted from the certification data's raw type code and bytes; the trusted chain is decoded whatever the quote is; there is a PCK key only when there is a leaf |
| Verification.FailFast | src/attestation_types/verify/mod.rs:58-112 | `verify` succeeds exactly when all eleven checks hold, and it fails at check `k` exactly when the checks before it hold and check `k` does not |
| Verification.AllOutcomes | src/attestation_types/verify/mod.rs:77-109 | all checks hold exactly when the evidence is complete, the chain of at most ten certificates is linked and validates, both signatures verify and the hash matches |
| Verification.RejectsUnparsable | src/attestation_types/verify/mod.rs:67 | a quote that does not parse is refused at the first check |
| Verification.Accepts | src/attestation_types/verify/mod.rs:58-112 | a quote that parses is accepted exactly when the leaf (from the certification data type and bytes) and the trusted chain decode, the chain is accepted, the key at 500..564 verifies the signature at 436..500 over bytes 0..432, the leaf's key verifies the signature at 948..1012 over the QE report at 564..948, and the SHA-256 of the key and the QE authentication data is bytes 884..916 |
| Verification.AcceptedCertDataIsPckChain | src/attestation_types/verify/mod.rs:75-78 | when the leaf extractor refuses every certification data type but the PCK certificate chain (code 5), every accepted quote parses and carries code 5 |
| Verification.HashCheck | src/attestation_types/verify/mod.rs:103-109 | the last check holds exactly when the SHA-256 of bytes 500..564 followed by the QE authentication data equals bytes 884..916 |
| Verification.AttestationKeyCheck | src/attestation_types/verify/mod.rs:92 | the attestation key check holds exactly when bytes 500..564 are a P-256 point |
| Verification.QuoteSignatureCheck | src/attestation_types/verify/mod.rs:92-94 | the quote signature check holds exactly when that key verifies bytes 436..500 as a signature over bytes 0..432 |
| Verification.QeReportCheck | src/attestation_types/verify/mod.rs:97-101 | the QE report check holds exactly when the leaf's key verifies bytes 948..1012 as a signature over the QE report at 564..948 |
| Tampering.ZeroOut | src/attestation_types/verify/mod.rs:157-159 | splicing in a same-length run of zeros keeps the length, zeroes exactly the spliced range and leaves every other byte as it was |
| Tampering.RefusedBy | src/attestation_types/verify/mod.rs:58-112 | when some check `k` fails, verification fails at `k` or at an earlier check |
| Tampering.ZeroedAttestationKeyRefused | src/attestation_types/verify/mod.rs:150-162 | with the origin not a P-256 point, a quote whose attestation key is zeroed is refused, at the attestation key check at the latest |
| Tampering.ZeroedReportSigRefused | src/attestation_types/verify/mod.rs:164-177 | with no all-zero signature valid, a quote whose ISV report signature is zeroed is refused, at the quote signature check at the latest |
| Tampering.ZeroedQeReportSigRefused | src/attestation_types/verify/mod.rs:179-192 | with no all-zero signature valid, a quote whose QE report signature is zeroed is refused, at the QE report signature check at the latest |
| Tampering.ZeroedHashRefused | src/attestation_types/verify/mod.rs:194-207 | a quote that verifies is refused once its hashed report data is zeroed, unless that data was zero already |
| Tampering.ZeroedHashKeepsInputs | src/attestation_types/verify/mod.rs:103-109 | zeroing the hashed report data leaves the attestation key and the QE authentication data it is checked against unchanged |
| Ssa.ExitInfoOf | src/ssa.rs:92-114 | the fields of an EXITINFO word fit their widths: a type of three bits and twenty reserved bits |
| Ssa.ExitInfoRoundTrip | src/ssa.rs:92-114 | an EXITINFO word and its fields (vector in bits 7:0, type in 10:8, reserved 30:11, valid bit 31) determine each other |
| Ssa.ExitTypeOf | src/ssa.rs:95-107 | a word without the valid bit has no exit type |
| Ssa.VectorOf | src/ssa.rs:110-117 | there is a vector exactly when the valid bit is set |
| Ssa.AccessorsReadFields | src/ssa.rs:95-117 | the exit type is Hardware for a valid word of type 3, Software for type 6 and none otherwise; the vector is the low byte of any valid word; the reserved bits play no part |
| Ssa.ExitTypeHasVector | src/ssa.rs:95-117 | an exit type always comes with a vector, and there is no vector exactly when the valid bit is clear |
| Ssa.GprLayout | src/ssa.rs:126-151 | the register block is 184 bytes: the twenty 64-bit registers eight bytes apart from 0, EXITINFO at 160, its reserved word at 164, FSBASE at 168 and GSBASE at 176 |
| Ssa.ExInfoLayout | src/ssa.rs:153-161 | EXINFO is 16 bytes with MADDR at 0, ERRCD at 8 and the reserved word at 12; MISC is EXINFO alone |
| Ssa.SsaLayout | src/ssa.rs:163-168 | the default frame is one 4096-byte page, a whole number of pages as `exit_type` asserts, with XSAVE at 0, the padding at 3072, MISC at 3896 and the registers at 3912, so EXITINFO is at 4072 |

## Left out

- Enclave loading: the ioctl, mmap and vDSO code, thread entry and CPUID scanning. These are device I/O and hardware instructions.
- PCK certificate retrieval and the PCK extension's DER extraction. These are network access and ASN.1 library wrappers.
- OpenSSL wrappers, X.509 parsing and path validation, PEM decoding, ECDSA P-256 verification, the DER encoding of `r ∥ s`, SHA-256 and RSA PKCS#1 v1.5 signing. These are function parameters, so the model proves what is done with their results, not the algorithms themselves.
- Key generation randomness, `from_pem` and `from_der`. These are library calls; the model starts from the key's public numbers.
- The builder errors of the X.509 store. They are folded into the `Error` outcome of path validation.
- The XFRM flag catalogue of the external `x86_64` crate. It is the parameter `xk` of declared bits.
- XSAVE contents and the names of `ExceptionVector` variants. The vector is kept as its raw byte.
- The generic padding of `StateSaveArea<T>`. The model fixes it at the default 824 bytes.
- `Debug` and `Display` formatting.
- Superseded duplicate modules elsewhere in the repository (src/hasher.rs, src/types/page.rs, src/attr.rs, src/types/attr.rs, src/attestation_types/report.rs and the older quote parser under src/attestation_types/quote). They duplicate the canonical records and layouts, so only the canonical files are modelled. The one difference in behaviour is in the older quote parser. It converts the key type (src/attestation_types/quote/quoteheader.rs:33-40) and the certification data type (src/attestation_types/quote/sigdata.rs:72-84) with checked `TryFrom`, rejecting unknown codes. The canonical parser stores the raw certification data type and transmutes the key type. This matters because verification reads the quote with that older parser (see the choice paragraph above).
- Verification.Gather, Verification.Accepts: the model's parse step follows the canonical parser and does not reject certification data type codes outside 1..7, as the older parser does at src/attestation_types/quote/sigdata.rs:84. The raw type code and the bytes are both handed to the leaf extractor `Platform.pckLeaf`, whose refusal of every type but 5 (`PCKCertChain`) is a property of the instance. `qe_cert_data_pckchain` is not part of this model. `Verification.AcceptedCertDataIsPckChain` states what follows when the extractor refuses the other types.
- Integer widths. `usize` offsets and sizes are 64-bit. The hasher's offset arithmetic requires the segment to end below 2^64 instead of modelling a wrap-around the source never reaches.
- Specific chains. The test chains that are bad, reversed or cut short are concrete certificates. The model states the condition under which a chain is accepted (`Verification.Accepts`, `CertChain.TruncatedStillLinked`) rather than the outcome for each test chain.
- Ssa.ExitTypeOf: its own contract only says that an invalid word has no exit type. The full case split is `Ssa.AccessorsReadFields`.
- Parameters.AttrBytes: its own contract gives only the 16-byte length. Its content and round trip are `Secs.AttrBytesRoundTrip`.
- A separate permissions type. src/page/perms.rs declares the same six bits, at the same positions, as the page flags, so the model uses one set of constants (`Page.WordValues`) for both.
- QuoteHeader.Version, QuoteHeader.KeyTypeOf and Quote.ParseQuote: an undeclared version or key-type code is undefined behaviour in src/quote/header.rs:50-58, which transmutes the raw u16 into the enum unchecked. The model rejects such codes with `UnsupportedVersion` and `UnsupportedKeyType` instead, so it does not describe what a compiled build does with them. A likely outcome is that the single-arm match at src/quote/mod.rs:62-64 parses any version as V3.
- Secs.SecsBytes: its own contract gives only the page length. Its content is `Secs.SecsRoundTrip`.

## Findings

| source | as written | input that shows it | evidently intended | confidence | as-written member | corrected member |
|---|---|---|---|---|---|---|
| src/crypto/rcrypto.rs:9-14 | `arr_from_big` copies `to_bytes_le()`, the shortest encoding, into a 384-byte array, so any number below 256^383 makes `copy_from_slice` panic | the number 1 (encoding `[1]`), or any signature, modulus or auxiliary whose top byte is zero | the 384-byte zero-padded little-endian image, as the OpenSSL backend produces | not executed | Crypto.ArrFromBigAsWritten | Crypto.ArrFromBig |
| src/crypto/rcrypto.rs:84-90 | `sign` packs the signature, the modulus, `q1` and `q2` through that `arr_from_big`, so signing panics whenever one of them is below 256^383 | a 384-byte signature whose value is 1 (or whose top byte is zero) under any accepted key with a modulus above 1 | signing returns the SIGSTRUCT numbers as zero-padded 384-byte images whenever they fit | not executed | Crypto.SignAsWritten | Crypto.Sign |
