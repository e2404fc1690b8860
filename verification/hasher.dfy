/**
  The MRENCLAVE measurement, computed off-line the way the processor
  computes it during enclave creation (section 41.3 of the Intel SDM,
  volume 3D): ECREATE contributes one 64-byte record, each EADD of a page
  one 64-byte record, and each EEXTEND of a 256-byte chunk a 320-byte
  record. The hasher is a state transformer over the digest's input log.

  Pages are 4096 bytes and are extended in 256-byte chunks, sixteen per
  page. The sizes are written as literals so that the arithmetic on them
  stays linear.
*/
module Hasher {
  import opened Bytes
  import opened Results
  import opened Page
  import Bits
  import Digest

  const ECREATE: u64 := 0x0045_5441_4552_4345

  /** The little-endian images of the three tags: "ECREATE", "EADD" and "EEXTEND" in ASCII, zero-padded. */
  const ECREATE_TAG: seq<byte> := [0x45, 0x43, 0x52, 0x45, 0x41, 0x54, 0x45, 0]
  const EADD_TAG: seq<byte> := [0x45, 0x41, 0x44, 0x44, 0, 0, 0, 0]
  const EEXTEND_TAG: seq<byte> := [0x45, 0x45, 0x58, 0x54, 0x45, 0x4E, 0x44, 0]
  const EADD: u64 := 0x0000_0000_4444_4145
  const EEXTEND: u64 := 0x0044_4E45_5458_4545

  /** The only error: the input is not a whole number of pages. */
  datatype InvalidSize = InvalidSize

  datatype Hasher = Hasher(digest: Digest.Ctx)

  // ------------------------------------------------------------------ Records

  function EcreateRecord(size: u64, ssaPages: NonZeroU32): (r: seq<byte>)
    ensures |r| == 64
  {
    ECREATE_TAG + LE32(ssaPages) + LE64(size) + Zeros(44)
  }

  function EaddRecord(offset: u64, si: SecInfo): (r: seq<byte>)
    ensures |r| == 64
  {
    EADD_TAG + LE64(offset) + MeasuredSecInfo(si)
  }

  function EextendRecord(offset: u64, chunk: seq<byte>): (r: seq<byte>)
    requires |chunk| == 256
    ensures |r| == 320
  {
    EEXTEND_TAG + LE64(offset) + Zeros(48) + chunk
  }

  /**
    The EEXTEND records of `data` extended at `offset`, one per 256-byte
    chunk, the chunk at `offset + 256 j` being chunk `j`. A page is sixteen
    chunks.
  */
  function ChunksLog(data: seq<byte>, offset: nat): (r: seq<byte>)
    requires offset + |data| < U64_LIMIT
    decreases |data|
  {
    if |data| < 256 then []
    else EextendRecord(offset, data[..256]) + ChunksLog(data[256..], offset + 256)
  }

  /** Bytes fed per page: the EADD record, and sixteen EEXTEND records when measured. */
  function PageCost(measure: bool): nat {
    if measure then 64 + 16 * 320 else 64
  }

  /** The records of one page added at `offset`. */
  function PageLog(page: seq<byte>, offset: nat, si: SecInfo, measure: bool): (r: seq<byte>)
    requires |page| == 4096 && offset + 4096 < U64_LIMIT
    ensures |r| == PageCost(measure)
  {
    ChunksLogLength(page, offset);
    EaddRecord(offset, si) + (if measure then ChunksLog(page, offset) else [])
  }

  /** The records of a run of pages, the first added at `offset` and each next one 4096 bytes on. */
  function PagesLog(pages: seq<byte>, offset: nat, si: SecInfo, measure: bool): (r: seq<byte>)
    requires offset + |pages| < U64_LIMIT
    decreases |pages|
  {
    if |pages| < 4096 then []
    else PageLog(pages[..4096], offset, si, measure) + PagesLog(pages[4096..], offset + 4096, si, measure)
  }

  // --------------------------------------------------------------- Operations

  /** `Hasher::new(size, ssa_frame_pages)`: a digest fed with the ECREATE record. */
  function New(size: u64, ssaPages: NonZeroU32): (r: Hasher)
    ensures r.digest.fed == EcreateRecord(size, ssaPages)
    ensures |r.digest.fed| == 64
    ensures r.digest.fed[..8] == ECREATE_TAG
    ensures U32(r.digest.fed[8..12]) == ssaPages && U64(r.digest.fed[12..20]) == size
    ensures AllZero(r.digest.fed[20..])
  {
    var r := Hasher(Digest.Chain(Digest.Chain(Digest.Chain(Digest.Chain(Digest.EMPTY,
      ECREATE_TAG), LE32(ssaPages)), LE64(size)), Zeros(44)));
    U32RoundTrip(ssaPages);
    U64RoundTrip(size);
    assert r.digest.fed == EcreateRecord(size, ssaPages);
    assert r.digest.fed[8..12] == LE32(ssaPages);
    assert r.digest.fed[12..20] == LE64(size);
    assert r.digest.fed[20..] == Zeros(44);
    r
  }

  /**
    `Hasher::load(pages, offset, secinfo, measure)`: fails with `InvalidSize`
    unless the input is whole pages, and otherwise feeds the records of
    every page. The offsets are `usize`; the caller keeps the end of the
    segment below 2^64.
  */
  function Load(h: Hasher, pages: seq<byte>, offset: nat, si: SecInfo, measure: bool): (r: Result<Hasher, InvalidSize>)
    requires |pages| % 4096 != 0 || offset + |pages| < U64_LIMIT
    ensures r.Failure? <==> |pages| % 4096 != 0
    ensures r.Success? ==> |h.digest.fed| <= |r.value.digest.fed| && r.value.digest.fed[..|h.digest.fed|] == h.digest.fed
  {
    if |pages| % 4096 != 0 then Failure(InvalidSize)
    else Success(Hasher(Digest.Update(h.digest, PagesLog(pages, offset, si, measure))))
  }

  /** `Hasher::finish`: the digest of everything fed. */
  function Finish<D>(h: Hasher, hash: seq<byte> -> D): D {
    Digest.Finish(h.digest, hash)
  }

  /**
    The loading loop as the source writes it: page by page, and within a
    measured page chunk by chunk, each record fed as it is produced.
  */
  method LoadPages(h: Hasher, pages: seq<byte>, offset: nat, si: SecInfo, measure: bool) returns (r: Result<Hasher, InvalidSize>)
    requires |pages| % 4096 != 0 || offset + |pages| < U64_LIMIT
    ensures r == Load(h, pages, offset, si, measure)
  {
    if |pages| % 4096 != 0 {
      return Failure(InvalidSize);
    }
    var d := h.digest;
    var off := offset;
    var n := |pages| / 4096;
    var k := 0;
    ghost var goal := h.digest.fed + PagesLog(pages, offset, si, measure);
    while k < n
      invariant k <= n && |pages| == 4096 * n
      invariant off == offset + 4096 * k
      invariant d.fed + PagesLog(pages[4096 * k..], off, si, measure) == goal
    {
      var i := 4096 * k;
      var page := pages[i..i + 4096];
      PagesLogStep(pages, i, off, si, measure);
      ghost var before := d.fed;
      d := FeedPage(d, page, off, si, measure);
      AppendAssoc(before, PageLog(page, off, si, measure), PagesLog(pages[i + 4096..], off + 4096, si, measure));
      off := off + |page|;
      k := k + 1;
    }
    assert d.fed + [] == d.fed;
    return Success(Hasher(d));
  }

  /** One iteration of the page loop: the EADD record, then the page's chunks when measured. */
  method FeedPage(d: Digest.Ctx, page: seq<byte>, off: nat, si: SecInfo, measure: bool) returns (d': Digest.Ctx)
    requires |page| == 4096 && off + 4096 < U64_LIMIT
    ensures d'.fed == d.fed + PageLog(page, off, si, measure)
  {
    d' := Digest.Update(d, EADD_TAG);
    d' := Digest.Update(d', LE64(off));
    d' := Digest.Update(d', MeasuredSecInfo(si));
    assert d'.fed == d.fed + EaddRecord(off, si);
    if measure {
      d' := FeedChunks(d', page, off);
    } else {
      assert d'.fed + [] == d'.fed;
    }
  }

  /** The chunk loop of a measured page: one EEXTEND record per 256 bytes. */
  method FeedChunks(d: Digest.Ctx, page: seq<byte>, off: nat) returns (d': Digest.Ctx)
    requires |page| == 4096 && off + 4096 < U64_LIMIT
    ensures d'.fed == d.fed + ChunksLog(page, off)
  {
    d' := d;
    var segOff := off;
    var k := 0;
    ghost var goal := d.fed + ChunksLog(page, off);
    while k < 16
      invariant k <= 16
      invariant segOff == off + 256 * k
      invariant d'.fed + ChunksLog(page[256 * k..], segOff) == goal
    {
      var j := 256 * k;
      var chunk := page[j..j + 256];
      ChunksLogStep(page, j, segOff);
      ghost var before := d'.fed;
      d' := FeedExtend(d', segOff, chunk);
      AppendAssoc(before, EextendRecord(segOff, chunk), ChunksLog(page[j + 256..], segOff + 256));
      segOff := segOff + |chunk|;
      k := k + 1;
    }
    assert d'.fed + [] == d'.fed;
  }

  /** One iteration of the chunk loop. */
  method FeedExtend(d: Digest.Ctx, off: nat, chunk: seq<byte>) returns (d': Digest.Ctx)
    requires off < U64_LIMIT && |chunk| == 256
    ensures d'.fed == d.fed + EextendRecord(off, chunk)
  {
    d' := Digest.Update(d, EEXTEND_TAG);
    d' := Digest.Update(d', LE64(off));
    d' := Digest.Update(d', Zeros(48));
    d' := Digest.Update(d', chunk);
  }

  lemma AppendAssoc(a: seq<byte>, b: seq<byte>, c: seq<byte>)
    ensures a + (b + c) == (a + b) + c
  {
  }

  lemma PagesLogStep(pages: seq<byte>, i: nat, off: nat, si: SecInfo, measure: bool)
    requires i + 4096 <= |pages| && off + |pages| - i < U64_LIMIT
    ensures PagesLog(pages[i..], off, si, measure)
      == PageLog(pages[i..i + 4096], off, si, measure) + PagesLog(pages[i + 4096..], off + 4096, si, measure)
  {
    assert pages[i..][..4096] == pages[i..i + 4096];
    assert pages[i..][4096..] == pages[i + 4096..];
  }

  lemma ChunksLogStep(data: seq<byte>, j: nat, off: nat)
    requires j + 256 <= |data| && off + |data| - j < U64_LIMIT
    ensures ChunksLog(data[j..], off) == EextendRecord(off, data[j..j + 256]) + ChunksLog(data[j + 256..], off + 256)
  {
    assert data[j..][..256] == data[j..j + 256];
    assert data[j..][256..] == data[j + 256..];
  }

  // ------------------------------------------------------------------- Lemmas

  /** Each tag is the 8-byte little-endian encoding of the instruction's constant. */
  lemma TagsEncode()
    ensures ECREATE_TAG == LE64(ECREATE)
    ensures EADD_TAG == LE64(EADD)
    ensures EEXTEND_TAG == LE64(EEXTEND)
  {
    TagEncodes(ECREATE_TAG, ECREATE);
    TagEncodes(EADD_TAG, EADD);
    TagEncodes(EEXTEND_TAG, EEXTEND);
  }

  lemma TagEncodes(tag: seq<byte>, n: u64)
    requires |tag| == 8
    requires n == tag[0] as int + 0x100 * tag[1] as int + 0x1_0000 * tag[2] as int + 0x100_0000 * tag[3] as int
      + 0x1_0000_0000 * tag[4] as int + 0x100_0000_0000 * tag[5] as int
      + 0x1_0000_0000_0000 * tag[6] as int + 0x100_0000_0000_0000 * tag[7] as int
    ensures tag == LE64(n)
  {
    var t1, t2, t3, t4, t5, t6, t7, t8 := tag[1..], tag[2..], tag[3..], tag[4..], tag[5..], tag[6..], tag[7..], tag[8..];
    assert t1[1..] == t2 && t2[1..] == t3 && t3[1..] == t4 && t4[1..] == t5;
    assert t5[1..] == t6 && t6[1..] == t7 && t7[1..] == t8 && t8 == [];
    assert FromLE(t7) == tag[7] as int;
    assert FromLE(t6) == tag[6] as int + 0x100 * tag[7] as int;
    assert FromLE(t5) == tag[5] as int + 0x100 * FromLE(t6);
    assert FromLE(t4) == tag[4] as int + 0x100 * FromLE(t5);
    assert FromLE(t3) == tag[3] as int + 0x100 * FromLE(t4);
    assert FromLE(t2) == tag[2] as int + 0x100 * FromLE(t3);
    assert FromLE(t1) == tag[1] as int + 0x100 * FromLE(t2);
    assert FromLE(tag) == tag[0] as int + 0x100 * FromLE(t1);
    LE64RoundTrip(tag);
  }

  /** Every 256 bytes extended are recorded in 320. */
  lemma {:induction false} ChunksLogLength(data: seq<byte>, offset: nat)
    requires offset + |data| < U64_LIMIT
    ensures |ChunksLog(data, offset)| == |data| / 256 * 320
    decreases |data|
  {
    if |data| >= 256 {
      ChunksLogLength(data[256..], offset + 256);
    }
  }

  /** Every page loaded is recorded in `PageCost(measure)` bytes. */
  lemma {:induction false} PagesLogLength(pages: seq<byte>, offset: nat, si: SecInfo, measure: bool)
    requires offset + |pages| < U64_LIMIT
    ensures |PagesLog(pages, offset, si, measure)| == |pages| / 4096 * PageCost(measure)
    decreases |pages|
  {
    if |pages| >= 4096 {
      PagesLogLength(pages[4096..], offset + 4096, si, measure);
      var q := (|pages| - 4096) / 4096;
      assert |pages| / 4096 == q + 1;
      if measure {
        assert (q + 1) * 5184 == q * 5184 + 5184;
      } else {
        assert (q + 1) * 64 == q * 64 + 64;
      }
    }
  }

  /** A successful load feeds 64 bytes per page, plus 16 records of 320 bytes per measured page. */
  lemma LoadLength(h: Hasher, pages: seq<byte>, offset: nat, si: SecInfo, measure: bool)
    requires |pages| % 4096 == 0 && offset + |pages| < U64_LIMIT
    ensures Load(h, pages, offset, si, measure).Success?
    ensures |Load(h, pages, offset, si, measure).value.digest.fed|
      == |h.digest.fed| + |pages| / 4096 * (64 + (if measure then 16 * 320 else 0))
  {
    PagesLogLength(pages, offset, si, measure);
  }

  /** Loading `a ++ b` feeds what loading `a` and then `b`, right after it, feeds. */
  lemma {:induction false} PagesLogAppend(a: seq<byte>, b: seq<byte>, offset: nat, si: SecInfo, measure: bool)
    requires |a| % 4096 == 0 && offset + |a| + |b| < U64_LIMIT
    ensures PagesLog(a + b, offset, si, measure) == PagesLog(a, offset, si, measure) + PagesLog(b, offset + |a|, si, measure)
    decreases |a|
  {
    if |a| == 0 {
      assert a + b == b;
    } else {
      var a' := a[4096..];
      PagesLogAppend(a', b, offset + 4096, si, measure);
      assert (a + b)[..4096] == a[..4096];
      assert (a + b)[4096..] == a' + b;
      var p := PageLog(a[..4096], offset, si, measure);
      var x, y := PagesLog(a', offset + 4096, si, measure), PagesLog(b, offset + |a|, si, measure);
      AppendAssoc(p, x, y);
    }
  }

  /** Loading two page-aligned segments one after the other is loading their concatenation. */
  lemma LoadSplit(h: Hasher, a: seq<byte>, b: seq<byte>, offset: nat, si: SecInfo, measure: bool)
    requires |a| % 4096 == 0 && offset + |a| + |b| < U64_LIMIT
    ensures Load(h, a, offset, si, measure).Success?
    ensures Load(h, a + b, offset, si, measure) == Load(Load(h, a, offset, si, measure).value, b, offset + |a|, si, measure)
  {
    ModAdd(|a|, |b|);
    if |b| % 4096 == 0 {
      PagesLogAppend(a, b, offset, si, measure);
      var x, y := PagesLog(a, offset, si, measure), PagesLog(b, offset + |a|, si, measure);
      assert h.digest.fed + (x + y) == h.digest.fed + x + y;
    }
  }

  lemma ModAdd(a: nat, b: nat)
    requires a % 4096 == 0
    ensures (a + b) % 4096 == b % 4096
  {
    var k := a / 4096;
    assert a == k * 4096;
    assert (a + b) == k * 4096 + b;
  }

  /**
    Page `k` of a run is recorded, with offset `offset + 4096 k`, after the
    records of the `k` pages before it, which take `k` times the bytes of one page.
  */
  lemma PagesLogPage(pages: seq<byte>, offset: nat, si: SecInfo, measure: bool, k: nat)
    requires offset + |pages| < U64_LIMIT && 4096 * k + 4096 <= |pages|
    ensures |PagesLog(pages[..4096 * k], offset, si, measure)| == k * PageCost(measure)
    ensures PagesLog(pages, offset, si, measure)
      == PagesLog(pages[..4096 * k], offset, si, measure)
       + PageLog(pages[4096 * k..4096 * k + 4096], offset + 4096 * k, si, measure)
       + PagesLog(pages[4096 * k + 4096..], offset + 4096 * k + 4096, si, measure)
  {
    var i := 4096 * k;
    PageMultiple(k);
    var front, back := pages[..i], pages[i..];
    assert pages == front + back;
    PagesLogAppend(front, back, offset, si, measure);
    PagesLogStep(pages, i, offset + i, si, measure);
    var a, m, z := PagesLog(front, offset, si, measure), PageLog(pages[i..i + 4096], offset + i, si, measure),
      PagesLog(pages[i + 4096..], offset + i + 4096, si, measure);
    assert PagesLog(pages, offset, si, measure) == a + (m + z);
    AppendAssoc(a, m, z);
    PagesLogLength(front, offset, si, measure);
  }

  /** `4096 k` is a whole number of pages: `k` of them. */
  lemma PageMultiple(k: nat)
    ensures (4096 * k) % 4096 == 0 && (4096 * k) / 4096 == k
  {
  }

  /** Chunk `j` of extended data is recorded at `offset + 256 j`, in the `j`-th 320-byte slot. */
  lemma {:induction false} ChunksLogChunk(data: seq<byte>, offset: nat, j: nat)
    requires |data| % 256 == 0 && offset + |data| < U64_LIMIT && 256 * j < |data|
    ensures 320 * j + 320 <= |ChunksLog(data, offset)|
    ensures ChunksLog(data, offset)[320 * j..320 * j + 320]
      == EEXTEND_TAG + LE64(offset + 256 * j) + Zeros(48) + data[256 * j..256 * j + 256]
    decreases j
  {
    ChunksLogLength(data, offset);
    ChunkSlot(|data|, j);
    var first, rest := EextendRecord(offset, data[..256]), ChunksLog(data[256..], offset + 256);
    assert ChunksLog(data, offset) == first + rest;
    if j > 0 {
      ChunksLogChunk(data[256..], offset + 256, j - 1);
      ChunkStep(ChunksLog(data, offset), first, rest, data, offset, j);
    } else {
      assert data[..256] == data[256 * j..256 * j + 256];
      assert (first + rest)[..320] == first;
    }
  }

  /**
    The step of `ChunksLogChunk`: when the records of all chunks but the
    first hold chunk `j - 1` of the rest in slot `j - 1`, the records of
    all chunks hold chunk `j` in slot `j`.
  */
  lemma ChunkStep(log: seq<byte>, first: seq<byte>, rest: seq<byte>, data: seq<byte>, offset: nat, j: nat)
    requires 0 < j && 256 * j + 256 <= |data| && offset + |data| < U64_LIMIT
    requires log == first + rest && |first| == 320 && 320 * (j - 1) + 320 <= |rest|
    requires rest[320 * (j - 1)..320 * (j - 1) + 320]
      == EEXTEND_TAG + LE64(offset + 256 + 256 * (j - 1)) + Zeros(48) + data[256..][256 * (j - 1)..256 * (j - 1) + 256]
    ensures log[320 * j..320 * j + 320] == EEXTEND_TAG + LE64(offset + 256 * j) + Zeros(48) + data[256 * j..256 * j + 256]
  {
    var a, c := 320 * (j - 1), 256 * (j - 1);
    assert 320 * j == a + 320 && 256 * j == c + 256;
    SlotAfter(first, rest, a);
    ChunkAfter(data, c);
    SameRecord(rest[a..a + 320], offset + 256 + c, offset + 256 * j, data[256..][c..c + 256], data[256 * j..256 * j + 256]);
  }

  /** An EEXTEND record is determined by its offset and its chunk. */
  lemma SameRecord(r: seq<byte>, x: nat, y: nat, d: seq<byte>, e: seq<byte>)
    requires x == y && d == e && x < U64_LIMIT
    requires r == EEXTEND_TAG + LE64(x) + Zeros(48) + d
    ensures r == EEXTEND_TAG + LE64(y) + Zeros(48) + e
  {
  }

  /** Past a first record of 320 bytes, slot `a` of the rest is slot `a + 320` of the whole. */
  lemma SlotAfter(first: seq<byte>, rest: seq<byte>, a: nat)
    requires |first| == 320 && a + 320 <= |rest|
    ensures (first + rest)[a + 320..a + 640] == rest[a..a + 320]
  {
  }

  /** Past the first chunk, chunk `c` of the rest is chunk `c + 256` of the whole. */
  lemma ChunkAfter(data: seq<byte>, c: nat)
    requires c + 512 <= |data|
    ensures data[256..][c..c + 256] == data[c + 256..c + 512]
  {
  }

  /** Chunk `j` of a whole number of chunks has its 320-byte slot inside the record of them all. */
  lemma ChunkSlot(len: nat, j: nat)
    requires len % 256 == 0 && 256 * j < len
    ensures 256 * j + 256 <= len && 320 * j + 320 <= len / 256 * 320
  {
    var n := len / 256;
    assert len == 256 * n;
  }

  /** The EADD record of a page comes first; when measured, its sixteen EEXTEND records follow. */
  lemma PageLogShape(page: seq<byte>, offset: nat, si: SecInfo, j: nat)
    requires |page| == 4096 && offset + 4096 < U64_LIMIT && j < 16
    ensures PageLog(page, offset, si, false) == EADD_TAG + LE64(offset) + MeasuredSecInfo(si)
    ensures var r := PageLog(page, offset, si, true);
      r[..64] == EADD_TAG + LE64(offset) + MeasuredSecInfo(si)
      && r[64 + 320 * j..64 + 320 * j + 320]
        == EEXTEND_TAG + LE64(offset + 256 * j) + Zeros(48) + page[256 * j..256 * j + 256]
  {
    ChunksLogChunk(page, offset, j);
    var e := ChunksLog(page, offset);
    var r := PageLog(page, offset, si, true);
    assert r == EaddRecord(offset, si) + e;
    assert r[64 + 320 * j..64 + 320 * j + 320] == e[320 * j..320 * j + 320];
    assert PageLog(page, offset, si, false) == EaddRecord(offset, si) + [];
  }

  /** An empty segment is accepted and feeds nothing. */
  lemma LoadEmpty(h: Hasher, offset: nat, si: SecInfo, measure: bool)
    requires offset < U64_LIMIT
    ensures Load(h, [], offset, si, measure) == Success(h)
  {
    assert h.digest.fed + [] == h.digest.fed;
  }

  /** Any partial page is rejected; one whole page is accepted. */
  lemma LoadPageSizes(h: Hasher, buf: seq<byte>, i: nat, si: SecInfo, measure: bool)
    requires |buf| == 4096 && 1 <= i < 4096
    ensures Load(h, buf[i..], 0, si, measure) == Failure(InvalidSize)
    ensures Load(h, buf, 0, si, measure).Success?
  {
  }

  /** A one-page segment feeds that page's records. */
  lemma SinglePage(page: seq<byte>, offset: nat, si: SecInfo, measure: bool)
    requires |page| == 4096 && offset + 4096 < U64_LIMIT
    ensures PagesLog(page, offset, si, measure) == PageLog(page, offset, si, measure)
  {
    assert page[..4096] == page;
    assert page[4096..] == [];
    var p := PageLog(page, offset, si, measure);
    assert p + [] == p;
  }

  /**
    A whole measurement: the digest of the ECREATE record followed, segment
    by segment, by the records each load feeds.
  */
  lemma Measurement<D>(size: u64, ssaPages: NonZeroU32, a: seq<byte>, offA: nat, siA: SecInfo,
                       b: seq<byte>, offB: nat, siB: SecInfo, measure: bool, hash: seq<byte> -> D)
    requires |a| % 4096 == 0 && offA + |a| < U64_LIMIT
    requires |b| % 4096 == 0 && offB + |b| < U64_LIMIT
    ensures var h1 := Load(New(size, ssaPages), a, offA, siA, measure);
      h1.Success? && Load(h1.value, b, offB, siB, measure).Success?
      && Finish(Load(h1.value, b, offB, siB, measure).value, hash)
         == hash(EcreateRecord(size, ssaPages) + PagesLog(a, offA, siA, measure) + PagesLog(b, offB, siB, measure))
  {
    var h0 := New(size, ssaPages);
    assert h0.digest.fed == EcreateRecord(size, ssaPages);
  }

  // --------------------------------------------------------- Known answer

  predicate IsPow2(n: nat) {
    n == 1 || (n > 1 && n % 2 == 0 && IsPow2(n / 2))
  }

  /** The least power of two not below `n` (1 for 0), as `usize::next_power_of_two` computes. */
  function NextPow2(n: nat): (r: nat)
    ensures IsPow2(r) && r >= 1 && r >= n
    ensures n >= 1 ==> r < 2 * n
    decreases n
  {
    if n <= 1 then 1 else 2 * NextPow2((n + 1) / 2)
  }

  /** No smaller power of two reaches `n`. */
  lemma {:induction false} NextPow2Least(n: nat, p: nat)
    requires IsPow2(p) && p >= n
    ensures NextPow2(n) <= p
    decreases n
  {
    if n > 1 {
      assert p > 1;
      NextPow2Least((n + 1) / 2, p / 2);
    }
  }

  const RWX: Flags := Bits.Word(8, {READ, WRITE, EXECUTE})

  /**
    The self-test's measurement of a binary of at least one page: the first
    page as a measured page at 0 with `first`, the rest as measured pages at
    4096 with `rest`, on a hasher created for `size` bytes and one SSA page.
  */
  function TwoSegments<D>(size: u64, bin: seq<byte>, first: SecInfo, rest: SecInfo, hash: seq<byte> -> D): (r: Result<D, InvalidSize>)
    requires 4096 <= |bin| < U64_LIMIT
  {
    var h1 := Load(New(size, 1), bin[..4096], 0, first, true);
    var h2 := Load(h1.value, bin[4096..], 4096, rest, true);
    if h2.Failure? then Failure(InvalidSize) else Success(Finish(h2.value, hash))
  }

  lemma TwoSegmentsResult<D>(size: u64, bin: seq<byte>, first: SecInfo, rest: SecInfo, hash: seq<byte> -> D)
    requires 4096 <= |bin| < U64_LIMIT
    ensures TwoSegments(size, bin, first, rest, hash).Success? <==> |bin| % 4096 == 0
    ensures TwoSegments(size, bin, first, rest, hash).Success? ==>
      TwoSegments(size, bin, first, rest, hash).value
        == hash(EcreateRecord(size, 1) + PageLog(bin[..4096], 0, first, true) + PagesLog(bin[4096..], 4096, rest, true))
  {
    var e := EcreateRecord(size, 1);
    var p := PageLog(bin[..4096], 0, first, true);
    SinglePage(bin[..4096], 0, first, true);
    ModAdd(4096, |bin| - 4096);
  }

  /**
    The measurement the known-answer self-test computes for an enclave
    binary: size the next power of two of its length, one SSA page, the
    first page as a measured TCS page at 0 and the rest as measured
    read-write-execute regular pages at 4096. A binary shorter than one
    page, or not whole pages, makes the test fail: every failure here is a
    panic of the self-test, which slices the first page out of the binary
    and unwraps every load.
  */
  function KnownAnswer<D>(bin: seq<byte>, hash: seq<byte> -> D): (r: Result<D, InvalidSize>)
    requires 2 * |bin| < U64_LIMIT
  {
    if |bin| < 4096 then Failure(InvalidSize)
    else TwoSegments(NextPow2(|bin|), bin, SecInfoTcs(), SecInfoReg(RWX), hash)
  }

  /**
    The self-test succeeds exactly on binaries of one or more whole pages,
    and then yields the digest of the ECREATE record, the TCS page's records
    and the regular pages' records.
  */
  lemma KnownAnswerResult<D>(bin: seq<byte>, hash: seq<byte> -> D)
    requires 2 * |bin| < U64_LIMIT
    ensures KnownAnswer(bin, hash).Success? <==> |bin| >= 4096 && |bin| % 4096 == 0
    ensures KnownAnswer(bin, hash).Success? ==>
      KnownAnswer(bin, hash).value == hash(EcreateRecord(NextPow2(|bin|), 1)
        + PageLog(bin[..4096], 0, SecInfoTcs(), true) + PagesLog(bin[4096..], 4096, SecInfoReg(RWX), true))
  {
    if |bin| >= 4096 {
      TwoSegmentsResult(NextPow2(|bin|), bin, SecInfoTcs(), SecInfoReg(RWX), hash);
    }
  }
}
