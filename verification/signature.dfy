/**
  SIGSTRUCT (section 38.13 of the Intel SDM, volume 3D): the author and
  body blocks, signed together, with the RSA numbers the signing key
  returned. Signing is a parameter here: it receives the two 128-byte
  block images and returns `SigData` or its own error.
*/
module Sigstruct {
  import opened Bytes
  import opened Layout
  import opened Results
  import Crypto
  import SigAuthor
  import SigBody

  datatype Signature = Signature(
    author: SigAuthor.Author,
    modulus: seq<byte>,
    exponent: u32,
    signature: seq<byte>,
    body: SigBody.Body,
    reserved: seq<byte>,
    q1: seq<byte>,
    q2: seq<byte>)

  predicate Valid(s: Signature) {
    SigAuthor.Valid(s.author) && SigBody.Valid(s.body)
    && |s.modulus| == Crypto.RSA_SIZE && |s.signature| == Crypto.RSA_SIZE
    && |s.reserved| == 12 && |s.q1| == Crypto.RSA_SIZE && |s.q2| == Crypto.RSA_SIZE
  }

  /** The numbers of a SIGSTRUCT, as signing returns them. */
  function SigDataOf(s: Signature): Crypto.SigData {
    Crypto.SigData(s.signature, s.modulus, s.exponent, s.q1, s.q2)
  }

  /**
    `Signature::new(key, author, body)`: hands the author image and the body
    image, in that order, to the signing key. Its error comes back
    unchanged; otherwise the returned numbers are stored verbatim beside
    the two blocks and twelve zero bytes.
  */
  function New<E>(sign: (seq<byte>, seq<byte>) -> Result<Crypto.SigData, E>, author: SigAuthor.Author, body: SigBody.Body): (r: Result<Signature, E>)
    requires SigAuthor.Valid(author) && SigBody.Valid(body)
    ensures var sd := sign(SigAuthor.AuthorBytes(author), SigBody.BodyBytes(body));
      (sd.Failure? <==> r.Failure?)
      && (sd.Failure? ==> r.error == sd.error)
      && (sd.Success? ==>
            SigDataOf(r.value) == sd.value && AllZero(r.value.reserved)
            && r.value.author == author && r.value.body == body
            && (Valid(r.value) <==> Crypto.SigDataValid(sd.value)))
  {
    match sign(SigAuthor.AuthorBytes(author), SigBody.BodyBytes(body))
    case Failure(e) => Failure(e)
    case Success(sd) => Success(Signature(author, sd.modulus, sd.exponent, sd.signature, body, Zeros(12), sd.q1, sd.q2))
  }

  /** `Signature::author`. */
  function AuthorOf(s: Signature): (r: SigAuthor.Author)
    requires Valid(s)
    ensures SigAuthor.Valid(r)
  {
    s.author
  }

  /** `Signature::body`. */
  function BodyOf(s: Signature): (r: SigBody.Body)
    requires Valid(s)
    ensures SigBody.Valid(r)
  {
    s.body
  }

  /**
    Re-signing a SIGSTRUCT's own author and body reproduces it exactly when
    its reserved bytes are zero and the key, given those two blocks again,
    returns the numbers it holds; a signature `new` produced always
    qualifies.
  */
  lemma Resign<E>(sign: (seq<byte>, seq<byte>) -> Result<Crypto.SigData, E>, s: Signature)
    requires Valid(s)
    ensures New(sign, AuthorOf(s), BodyOf(s)) == Success(s) <==>
      AllZero(s.reserved) && sign(SigAuthor.AuthorBytes(s.author), SigBody.BodyBytes(s.body)) == Success(SigDataOf(s))
    ensures forall a: SigAuthor.Author, b: SigBody.Body ::
      SigAuthor.Valid(a) && SigBody.Valid(b) && New(sign, a, b) == Success(s) ==>
      New(sign, AuthorOf(s), BodyOf(s)) == Success(s)
  {
    if AllZero(s.reserved) {
      assert s.reserved == Zeros(12);
    }
  }

  /** The field sizes of SIGSTRUCT, in declaration order. */
  const SIG_SIZES: seq<nat> := [128, 384, 4, 384, 128, 12, 384, 384]

  function SigFields(s: Signature): (r: seq<seq<byte>>)
    requires Valid(s)
    ensures Shaped(r, SIG_SIZES)
  {
    [SigAuthor.AuthorBytes(s.author), s.modulus, LE32(s.exponent), s.signature,
     SigBody.BodyBytes(s.body), s.reserved, s.q1, s.q2]
  }

  /** The 1808-byte SIGSTRUCT image. */
  function SigBytes(s: Signature): (r: seq<byte>)
    requires Valid(s)
    ensures |r| == 1808
  {
    ConcatLength(SigFields(s), SIG_SIZES);
    SigLayout();
    Concat(SigFields(s))
  }

  /**
    SIGSTRUCT is 1808 bytes: author 0, modulus 128, exponent 512, signature
    516, body 900, reserved 1028, q1 1040, q2 1424.
  */
  lemma SigLayout()
    ensures Sum(SIG_SIZES) == 1808
    ensures Offsets(SIG_SIZES) == [0, 128, 512, 516, 900, 1028, 1040, 1424, 1808]
  {
    var s := SIG_SIZES;
    assert s[..0] == [];
    OffsetBounds(s, 0);
    OffsetBounds(s, 1);
    OffsetBounds(s, 2);
    OffsetBounds(s, 3);
    OffsetBounds(s, 4);
    OffsetBounds(s, 5);
    OffsetBounds(s, 6);
    OffsetBounds(s, 7);
    assert s[..8] == s;
    OffsetsAre(s, [0, 128, 512, 516, 900, 1028, 1040, 1424, 1808]);
  }

  lemma FieldAt(s: Signature, i: nat)
    requires Valid(s) && i < 8
    ensures |SigBytes(s)| == 1808
    ensures Offsets(SIG_SIZES)[i] <= Offsets(SIG_SIZES)[i + 1] <= 1808
    ensures SigBytes(s)[Offsets(SIG_SIZES)[i]..Offsets(SIG_SIZES)[i + 1]] == SigFields(s)[i]
  {
    ConcatField(SigFields(s), SIG_SIZES, i);
    OffsetsAgree(SIG_SIZES, i);
    OffsetsAgree(SIG_SIZES, i + 1);
    OffsetBounds(SIG_SIZES, i);
  }

  /**
    In the image every field sits at its offset: the two signed blocks at
    0 and 900, the RSA numbers at 128, 516, 1040 and 1424, the exponent at
    512 and the reserved bytes at 1028.
  */
  lemma SigImage(s: Signature)
    requires Valid(s)
    ensures var i := SigBytes(s);
      i[0..128] == SigAuthor.AuthorBytes(s.author) && i[128..512] == s.modulus
      && U32(i[512..516]) == s.exponent && i[516..900] == s.signature
      && i[900..1028] == SigBody.BodyBytes(s.body) && i[1028..1040] == s.reserved
      && i[1040..1424] == s.q1 && i[1424..1808] == s.q2
  {
    SigLayout();
    FieldAt(s, 0);
    FieldAt(s, 1);
    FieldAt(s, 2);
    FieldAt(s, 3);
    FieldAt(s, 4);
    FieldAt(s, 5);
    FieldAt(s, 6);
    FieldAt(s, 7);
    U32RoundTrip(s.exponent);
  }

  /**
    Signing with an RS256 key: the signed message is SHA-256 of the author
    image followed by the body image, and a SIGSTRUCT produced this way is
    well formed, holds the key's modulus and exponent, and holds the
    signature the PKCS#1 primitive returned.
  */
  lemma SignedWithRs256<E>(k: Crypto.Rs256Key, sha256: seq<byte> -> seq<byte>,
                           pkcs1: (Crypto.RsaKey, seq<byte>) -> Result<seq<byte>, E>,
                           author: SigAuthor.Author, body: SigBody.Body)
    requires SigAuthor.Valid(author) && SigBody.Valid(body)
    ensures var r := New((a, b) => Crypto.Sign(k, a, b, sha256, pkcs1), author, body);
      var raw := pkcs1(k.key, sha256(SigAuthor.AuthorBytes(author) + SigBody.BodyBytes(body)));
      (raw.Failure? ==> r == Failure(Crypto.Library(raw.error)))
      && (r.Success? ==>
            Valid(r.value) && raw.Success? && FromLE(r.value.signature) == FromBE(raw.value)
            && FromLE(r.value.modulus) == k.key.n && r.value.exponent == k.key.e)
  {
  }
}
