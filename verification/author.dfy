/**
  The author block of SIGSTRUCT (section 38.13 of the Intel SDM, volume 3D):
  the first 128 bytes of the signed data, naming the enclave's author.
*/
module SigAuthor {
  import opened Bytes
  import opened Layout

  /**
    The in-memory images of the two constant headers. The source writes
    them as `u128::from_be(x)`, whose image on a little-endian machine is
    the big-endian encoding of `x`; `HeaderValues` gives the `x`.
  */
  const HEADER1: seq<byte> := [0x06, 0, 0, 0, 0xE1, 0, 0, 0, 0, 0, 0x01, 0, 0, 0, 0, 0]
  const HEADER2: seq<byte> := [0x01, 0x01, 0, 0, 0x60, 0, 0, 0, 0x60, 0, 0, 0, 0x01, 0, 0, 0]

  /**
    The author block. The headers are held as their 16-byte images and
    `reserved` is the image of the 21 reserved 32-bit words, 84 bytes.
  */
  datatype Author = Author(header1: seq<byte>, vendor: u32, date: u32, header2: seq<byte>, swdefined: u32, reserved: seq<byte>)

  predicate Valid(a: Author) {
    |a.header1| == 16 && |a.header2| == 16 && |a.reserved| == 84
  }

  /** `Author::new(date, swdefined)`: the constant headers, vendor 0 and zero reserved words. */
  function New(date: u32, swdefined: u32): (r: Author)
    ensures Valid(r)
    ensures r.header1 == HEADER1 && r.header2 == HEADER2
    ensures r.vendor == 0 && r.date == date && r.swdefined == swdefined
    ensures AllZero(r.reserved)
  {
    Author(HEADER1, 0, date, HEADER2, swdefined, Zeros(84))
  }

  const AUTHOR_SIZES: seq<nat> := [16, 4, 4, 16, 4, 84]

  function AuthorFields(a: Author): (r: seq<seq<byte>>)
    requires Valid(a)
    ensures Shaped(r, AUTHOR_SIZES)
  {
    [a.header1, LE32(a.vendor), LE32(a.date), a.header2, LE32(a.swdefined), a.reserved]
  }

  /** The 128-byte image of the author block, as it is signed. */
  function AuthorBytes(a: Author): (r: seq<byte>)
    requires Valid(a)
    ensures |r| == 128
  {
    ConcatLength(AuthorFields(a), AUTHOR_SIZES);
    AuthorLayout();
    Concat(AuthorFields(a))
  }

  /** The author block a 128-byte image holds. */
  function AuthorOf(b: seq<byte>): (r: Author)
    requires |b| == 128
    ensures Valid(r)
  {
    AuthorLayout();
    ConcatSplit(b, AUTHOR_SIZES);
    var f := Split(b, AUTHOR_SIZES);
    Author(f[0], U32(f[1]), U32(f[2]), f[3], U32(f[4]), f[5])
  }

  /** The block is 128 bytes; the fields start at 0, 16, 20, 24, 40 and 44. */
  lemma AuthorLayout()
    ensures Sum(AUTHOR_SIZES) == 128
    ensures Offsets(AUTHOR_SIZES) == [0, 16, 20, 24, 40, 44, 128]
  {
    var s := AUTHOR_SIZES;
    assert s[..0] == [];
    OffsetBounds(s, 0);
    OffsetBounds(s, 1);
    OffsetBounds(s, 2);
    OffsetBounds(s, 3);
    OffsetBounds(s, 4);
    OffsetBounds(s, 5);
    assert s[..6] == s;
    OffsetsAre(s, [0, 16, 20, 24, 40, 44, 128]);
  }

  /** Decoding the image of an author block gives it back, and every image is one. */
  lemma AuthorRoundTrip(a: Author, b: seq<byte>)
    requires Valid(a) && |b| == 128
    ensures AuthorOf(AuthorBytes(a)) == a
    ensures AuthorBytes(AuthorOf(b)) == b
  {
    AuthorLayout();
    SplitConcat(AuthorFields(a), AUTHOR_SIZES);
    U32RoundTrip(a.vendor);
    U32RoundTrip(a.date);
    U32RoundTrip(a.swdefined);
    var f := Split(b, AUTHOR_SIZES);
    ConcatSplit(b, AUTHOR_SIZES);
    LE32RoundTrip(f[1]);
    LE32RoundTrip(f[2]);
    LE32RoundTrip(f[4]);
    assert AuthorFields(AuthorOf(b)) == f;
  }

  /** Read big-endian, the header images are the numbers the source passes to `u128::from_be`. */
  lemma HeaderValues()
    ensures FromBE(HEADER1) == 0x0600_0000_E100_0000_0000_0100_0000_0000
    ensures FromBE(HEADER2) == 0x0101_0000_6000_0000_6000_0000_0100_0000
  {
    BEValue16(HEADER1);
    BEValue16(HEADER2);
  }

  lemma BEValue16(s: seq<byte>)
    requires |s| == 16
    ensures FromBE(s) == ((((((((((((((s[0] as int * 256 + s[1]) * 256 + s[2]) * 256 + s[3]) * 256 + s[4])
      * 256 + s[5]) * 256 + s[6]) * 256 + s[7]) * 256 + s[8]) * 256 + s[9]) * 256 + s[10])
      * 256 + s[11]) * 256 + s[12]) * 256 + s[13]) * 256 + s[14]) * 256 + s[15]
  {
    assert s[..0] == [];
    FromBEPrefix(s, 1);
    FromBEPrefix(s, 2);
    FromBEPrefix(s, 3);
    FromBEPrefix(s, 4);
    FromBEPrefix(s, 5);
    FromBEPrefix(s, 6);
    FromBEPrefix(s, 7);
    FromBEPrefix(s, 8);
    FromBEPrefix(s, 9);
    FromBEPrefix(s, 10);
    FromBEPrefix(s, 11);
    FromBEPrefix(s, 12);
    FromBEPrefix(s, 13);
    FromBEPrefix(s, 14);
    FromBEPrefix(s, 15);
    FromBEPrefix(s, 16);
    assert s[..16] == s;
  }

  /** In the image of a new author block every field sits at its offset. */
  lemma NewImage(date: u32, swdefined: u32)
    ensures var b := AuthorBytes(New(date, swdefined));
      b[0..16] == HEADER1 && b[16..20] == Zeros(4) && b[20..24] == LE32(date)
      && b[24..40] == HEADER2 && b[40..44] == LE32(swdefined) && b[44..] == Zeros(84)
  {
    var a := New(date, swdefined);
    AuthorLayout();
    LEZero(4);
    Pow256Values();
    FieldAt(a, 0);
    FieldAt(a, 1);
    FieldAt(a, 2);
    FieldAt(a, 3);
    FieldAt(a, 4);
    FieldAt(a, 5);
  }

  lemma FieldAt(a: Author, i: nat)
    requires Valid(a) && i < 6
    ensures |AuthorBytes(a)| == 128
    ensures Offsets(AUTHOR_SIZES)[i] <= Offsets(AUTHOR_SIZES)[i + 1] <= 128
    ensures AuthorBytes(a)[Offsets(AUTHOR_SIZES)[i]..Offsets(AUTHOR_SIZES)[i + 1]] == AuthorFields(a)[i]
  {
    ConcatField(AuthorFields(a), AUTHOR_SIZES, i);
    OffsetsAgree(AUTHOR_SIZES, i);
    OffsetsAgree(AUTHOR_SIZES, i + 1);
    OffsetBounds(AUTHOR_SIZES, i);
  }
}
