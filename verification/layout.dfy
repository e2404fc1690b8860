/**
  Fixed record layouts. A C-compatible record without implicit padding is
  described by the byte sizes of its fields, in declaration order; its image
  is the concatenation of the field images, and field `i` starts at the sum
  of the sizes before it. Every fixed-size SGX record of this model (SECS,
  TCS, SECINFO, SIGSTRUCT, REPORT, the Quote header, ...) is one such layout,
  so the offsets the repository checks field by field are stated once here.
*/
module Layout {
  import opened Bytes

  /** Total size of the fields. */
  function Sum(sizes: seq<nat>): nat {
    if |sizes| == 0 then 0 else Sum(sizes[..|sizes| - 1]) + sizes[|sizes| - 1]
  }

  /** Byte offset of field `i`: the sizes of the fields declared before it. */
  function Offset(sizes: seq<nat>, i: nat): nat
    requires i <= |sizes|
  {
    Sum(sizes[..i])
  }

  /** All field offsets, followed by the record size. */
  function Offsets(sizes: seq<nat>): (r: seq<nat>)
    ensures |r| == |sizes| + 1
  {
    if |sizes| == 0 then [0]
    else Offsets(sizes[..|sizes| - 1]) + [Sum(sizes)]
  }

  /** The field images have the declared sizes. */
  predicate Shaped(fields: seq<seq<byte>>, sizes: seq<nat>) {
    |fields| == |sizes| && forall i :: 0 <= i < |sizes| ==> |fields[i]| == sizes[i]
  }

  /** The record image: the field images one after the other. */
  function Concat(fields: seq<seq<byte>>): seq<byte> {
    if |fields| == 0 then [] else Concat(fields[..|fields| - 1]) + fields[|fields| - 1]
  }

  /** Cuts a record image into its field images. */
  function Split(bytes: seq<byte>, sizes: seq<nat>): (r: seq<seq<byte>>)
    requires |bytes| == Sum(sizes)
    ensures |r| == |sizes|
    decreases |sizes|
  {
    if |sizes| == 0 then []
    else
      var last := sizes[|sizes| - 1];
      Split(bytes[..|bytes| - last], sizes[..|sizes| - 1]) + [bytes[|bytes| - last..]]
  }

  /** Field `i` of a record image. */
  function Field(bytes: seq<byte>, sizes: seq<nat>, i: nat): (r: seq<byte>)
    requires |bytes| == Sum(sizes) && i < |sizes|
    ensures |r| == sizes[i]
  {
    OffsetBounds(sizes, i);
    bytes[Offset(sizes, i)..Offset(sizes, i + 1)]
  }

  /** Each field starts where the previous one ends; the first starts at 0. */
  lemma OffsetSteps(sizes: seq<nat>)
    ensures Offset(sizes, 0) == 0
    ensures forall i :: 0 < i <= |sizes| ==> Offset(sizes, i) == Offset(sizes, i - 1) + sizes[i - 1]
  {
    assert sizes[..0] == [];
    forall i | 0 < i <= |sizes|
      ensures Offset(sizes, i) == Offset(sizes, i - 1) + sizes[i - 1]
    {
      OffsetBounds(sizes, i - 1);
    }
  }

  lemma {:induction false} OffsetsAgree(sizes: seq<nat>, i: nat)
    requires i <= |sizes|
    ensures Offsets(sizes)[i] == Offset(sizes, i)
  {
    if |sizes| > 0 && i < |sizes| {
      OffsetsAgree(sizes[..|sizes| - 1], i);
      assert sizes[..|sizes| - 1][..i] == sizes[..i];
    } else {
      assert sizes[..i] == sizes;
    }
  }

  lemma {:induction false} OffsetBounds(sizes: seq<nat>, i: nat)
    requires i < |sizes|
    ensures Offset(sizes, i + 1) == Offset(sizes, i) + sizes[i]
    ensures Offset(sizes, i + 1) <= Sum(sizes)
  {
    assert sizes[..i + 1][..i] == sizes[..i];
    OffsetMonotone(sizes, i + 1);
  }

  lemma {:induction false} OffsetMonotone(sizes: seq<nat>, i: nat)
    requires i <= |sizes|
    ensures Offset(sizes, i) <= Sum(sizes)
  {
    if i < |sizes| {
      OffsetMonotone(sizes[..|sizes| - 1], i);
      assert sizes[..|sizes| - 1][..i] == sizes[..i];
    } else {
      assert sizes[..i] == sizes;
    }
  }

  lemma {:induction false} ConcatLength(fields: seq<seq<byte>>, sizes: seq<nat>)
    requires Shaped(fields, sizes)
    ensures |Concat(fields)| == Sum(sizes)
  {
    if |fields| > 0 {
      ConcatLength(fields[..|fields| - 1], sizes[..|sizes| - 1]);
    }
  }

  /** Field `i` of a record image is the image it was built from. */
  lemma {:induction false} ConcatField(fields: seq<seq<byte>>, sizes: seq<nat>, i: nat)
    requires Shaped(fields, sizes) && i < |sizes|
    ensures |Concat(fields)| == Sum(sizes)
    ensures Field(Concat(fields), sizes, i) == fields[i]
  {
    ConcatLength(fields, sizes);
    OffsetBounds(sizes, i);
    var n := |fields| - 1;
    var init, initSizes := fields[..n], sizes[..n];
    ConcatLength(init, initSizes);
    if i == n {
      assert sizes[..i] == initSizes;
    } else {
      ConcatField(init, initSizes, i);
      OffsetBounds(initSizes, i);
      assert initSizes[..i] == sizes[..i];
      assert initSizes[..i + 1] == sizes[..i + 1];
      assert Concat(fields)[..Sum(initSizes)] == Concat(init);
    }
  }

  /** Splitting a record image and reassembling it gives the image back. */
  lemma {:induction false} ConcatSplit(bytes: seq<byte>, sizes: seq<nat>)
    requires |bytes| == Sum(sizes)
    ensures Shaped(Split(bytes, sizes), sizes)
    ensures Concat(Split(bytes, sizes)) == bytes
    decreases |sizes|
  {
    if |sizes| > 0 {
      var last := sizes[|sizes| - 1];
      var r := Split(bytes, sizes);
      ConcatSplit(bytes[..|bytes| - last], sizes[..|sizes| - 1]);
      assert r[..|r| - 1] == Split(bytes[..|bytes| - last], sizes[..|sizes| - 1]);
      assert bytes == bytes[..|bytes| - last] + bytes[|bytes| - last..];
    }
  }

  /** Building a record image and splitting it gives the field images back. */
  lemma {:induction false} SplitConcat(fields: seq<seq<byte>>, sizes: seq<nat>)
    requires Shaped(fields, sizes)
    ensures |Concat(fields)| == Sum(sizes)
    ensures Split(Concat(fields), sizes) == fields
  {
    ConcatLength(fields, sizes);
    if |fields| > 0 {
      var n := |fields| - 1;
      ConcatLength(fields[..n], sizes[..n]);
      SplitConcat(fields[..n], sizes[..n]);
      assert Concat(fields)[..|Concat(fields)| - sizes[n]] == Concat(fields[..n]);
      assert fields == fields[..n] + [fields[n]];
    }
  }

  /** The fields of a split image are the image's fields. */
  lemma SplitField(bytes: seq<byte>, sizes: seq<nat>, i: nat)
    requires |bytes| == Sum(sizes) && i < |sizes|
    ensures Split(bytes, sizes)[i] == Field(bytes, sizes, i)
  {
    ConcatSplit(bytes, sizes);
    ConcatField(Split(bytes, sizes), sizes, i);
  }

  /** The image of two runs of fields is the images of the runs, one after the other. */
  lemma {:induction false} ConcatAppend(p: seq<seq<byte>>, q: seq<seq<byte>>)
    ensures Concat(p + q) == Concat(p) + Concat(q)
    decreases |q|
  {
    if |q| == 0 {
      assert p + q == p;
    } else {
      var n := |q| - 1;
      ConcatAppend(p, q[..n]);
      assert (p + q)[..|p + q| - 1] == p + q[..n];
      assert Concat(p) + Concat(q[..n]) + q[n] == Concat(p) + (Concat(q[..n]) + q[n]);
    }
  }

  /** The offsets list is determined by the offsets of the fields. */
  lemma OffsetsAre(sizes: seq<nat>, offsets: seq<nat>)
    requires |offsets| == |sizes| + 1
    requires forall i :: 0 <= i <= |sizes| ==> Offset(sizes, i) == offsets[i]
    ensures Offsets(sizes) == offsets
  {
    forall i | 0 <= i <= |sizes|
      ensures Offsets(sizes)[i] == offsets[i]
    {
      OffsetsAgree(sizes, i);
    }
  }
}
