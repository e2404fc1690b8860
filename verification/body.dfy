/**
  The body block of SIGSTRUCT (section 38.13 of the Intel SDM, volume 3D):
  the second 128 bytes of the signed data, holding the enclave's
  parameters and its measurement.
*/
module SigBody {
  import opened Bytes
  import opened Layout
  import opened Parameters

  datatype Body = Body(
    misc: Masked<MiscSelect>,
    reserved0: seq<byte>,
    attr: Masked<Attributes>,
    mrenclave: seq<byte>,
    reserved1: seq<byte>,
    isvProdId: u16,
    isvSvn: u16)

  predicate Valid(b: Body) {
    |b.reserved0| == 20 && |b.mrenclave| == 32 && |b.reserved1| == 32
  }

  /** `Body::new(parameters, mrenclave)`: the parameters and measurement, reserved regions zero. */
  function New(p: Parameters, mrenclave: seq<byte>): (r: Body)
    requires |mrenclave| == 32
    ensures Valid(r)
    ensures AllZero(r.reserved0) && AllZero(r.reserved1)
  {
    Body(p.misc, Zeros(20), p.attr, mrenclave, Zeros(32), p.isvProdId, p.isvSvn)
  }

  /** `Body::mrenclave`. */
  function Mrenclave(b: Body): (r: seq<byte>)
    requires Valid(b)
    ensures |r| == 32
  {
    b.mrenclave
  }

  /** `Body::parameters`: the four parameter fields, reassembled. */
  function ParametersOf(b: Body): Parameters {
    Parameters(b.misc, b.attr, b.isvProdId, b.isvSvn)
  }

  /**
    The accessors give back what `new` was given, and a body whose reserved
    regions are zero is the body `new` builds from its own accessors.
  */
  lemma Accessors(p: Parameters, m: seq<byte>, b: Body)
    requires |m| == 32
    ensures Mrenclave(New(p, m)) == m
    ensures ParametersOf(New(p, m)) == p
    ensures Valid(b) && AllZero(b.reserved0) && AllZero(b.reserved1) ==> New(ParametersOf(b), Mrenclave(b)) == b
  {
    if Valid(b) && AllZero(b.reserved0) && AllZero(b.reserved1) {
      assert b.reserved0 == Zeros(20);
      assert b.reserved1 == Zeros(32);
    }
  }

  const BODY_SIZES: seq<nat> := [8, 20, 32, 32, 32, 2, 2]

  function BodyFields(b: Body): (r: seq<seq<byte>>)
    requires Valid(b)
    ensures Shaped(r, BODY_SIZES)
  {
    [MaskedMiscBytes(b.misc), b.reserved0, MaskedAttrBytes(b.attr), b.mrenclave, b.reserved1, LE16(b.isvProdId), LE16(b.isvSvn)]
  }

  /** The 128-byte image of the body block, as it is signed. */
  function BodyBytes(b: Body): (r: seq<byte>)
    requires Valid(b)
    ensures |r| == 128
  {
    ConcatLength(BodyFields(b), BODY_SIZES);
    BodyLayout();
    Concat(BodyFields(b))
  }

  /** The block is 128 bytes; the fields start at 0, 8, 28, 60, 92, 124 and 126. */
  lemma BodyLayout()
    ensures Sum(BODY_SIZES) == 128
    ensures Offsets(BODY_SIZES) == [0, 8, 28, 60, 92, 124, 126, 128]
  {
    var s := BODY_SIZES;
    assert s[..0] == [];
    OffsetBounds(s, 0);
    OffsetBounds(s, 1);
    OffsetBounds(s, 2);
    OffsetBounds(s, 3);
    OffsetBounds(s, 4);
    OffsetBounds(s, 5);
    OffsetBounds(s, 6);
    assert s[..7] == s;
    OffsetsAre(s, [0, 8, 28, 60, 92, 124, 126, 128]);
  }

  lemma FieldAt(b: Body, i: nat)
    requires Valid(b) && i < 7
    ensures |BodyBytes(b)| == 128
    ensures Offsets(BODY_SIZES)[i] <= Offsets(BODY_SIZES)[i + 1] <= 128
    ensures BodyBytes(b)[Offsets(BODY_SIZES)[i]..Offsets(BODY_SIZES)[i + 1]] == BodyFields(b)[i]
  {
    ConcatField(BodyFields(b), BODY_SIZES, i);
    OffsetsAgree(BODY_SIZES, i);
    OffsetsAgree(BODY_SIZES, i + 1);
    OffsetBounds(BODY_SIZES, i);
  }

  /** In the image of a body every field sits at its offset; the measurement is bytes 60 to 92. */
  lemma BodyImage(b: Body)
    requires Valid(b)
    ensures var i := BodyBytes(b);
      i[0..8] == MaskedMiscBytes(b.misc) && i[8..28] == b.reserved0 && i[28..60] == MaskedAttrBytes(b.attr)
      && i[60..92] == b.mrenclave && i[92..124] == b.reserved1
      && U16(i[124..126]) == b.isvProdId && U16(i[126..128]) == b.isvSvn
  {
    BodyLayout();
    FieldAt(b, 0);
    FieldAt(b, 1);
    FieldAt(b, 2);
    FieldAt(b, 3);
    FieldAt(b, 4);
    FieldAt(b, 5);
    FieldAt(b, 6);
    U16RoundTrip(b.isvProdId);
    U16RoundTrip(b.isvSvn);
  }
}
