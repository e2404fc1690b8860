/**
  Enclave pages: the page type (`PAGE_TYPE`, here `Class`), the page flag
  bits, and the 64-byte SECINFO record that EADD takes and the measurement
  hashes.
*/
module Page {
  import opened Bytes
  import opened Bits
  import opened Results

  // --------------------------------------------------------------------- Class

  datatype Class = Secs | Tcs | Reg | Va | Trim

  /** The one-byte `PAGE_TYPE` code of a class. */
  function ClassCode(c: Class): (r: byte)
    ensures r < 5
  {
    match c
    case Secs => 0
    case Tcs => 1
    case Reg => 2
    case Va => 3
    case Trim => 4
  }

  /** The class a `PAGE_TYPE` byte names, if any. */
  function ClassOf(b: byte): (r: Option<Class>)
    ensures r.Some? <==> b < 5
  {
    if b == 0 then Some(Secs)
    else if b == 1 then Some(Tcs)
    else if b == 2 then Some(Reg)
    else if b == 3 then Some(Va)
    else if b == 4 then Some(Trim)
    else None
  }

  /** The encoding and the decoding are inverse, so the encoding is injective. */
  lemma ClassCodeRoundTrip(c: Class, d: Class, b: byte)
    ensures ClassOf(ClassCode(c)) == Some(c)
    ensures ClassCode(c) == ClassCode(d) ==> c == d
    ensures ClassOf(b).Some? ==> ClassCode(ClassOf(b).value) == b
  {
  }

  // --------------------------------------------------------------------- Flags

  /**
    The bit positions of the page flags. The permissions type declares the
    same six bits at the same positions, so these constants serve both.
  */

  const READ: nat := 0
  const WRITE: nat := 1
  const EXECUTE: nat := 2
  const PENDING: nat := 3
  const MODIFIED: nat := 4
  const RESTRICTED: nat := 5

  const FLAGS_ALL: seq<bool> := Word(8, {READ, WRITE, EXECUTE, PENDING, MODIFIED, RESTRICTED})

  /** Page flags: an 8-bit word holding declared flags only. */
  type Flags = f: seq<bool> | Within(f, FLAGS_ALL) witness Word(8, {})

  /** The flag byte of a set of flags. */
  function FlagsByte(f: Flags): (r: byte)
    ensures r == Value(f)
  {
    ValueBound(f);
    Pow2Values();
    Value(f)
  }

  /** The value of the word with exactly the positions `p` set, for the positions below 8. */
  lemma WordValues()
    ensures Value(Word(8, {})) == 0
    ensures Value(Word(8, {READ})) == 1
    ensures Value(Word(8, {WRITE})) == 2
    ensures Value(Word(8, {EXECUTE})) == 4
    ensures Value(Word(8, {PENDING})) == 8
    ensures Value(Word(8, {MODIFIED})) == 16
    ensures Value(Word(8, {RESTRICTED})) == 32
    ensures Value(FLAGS_ALL) == 0x3F
  {
    ValueByte(Word(8, {}));
    ValueByte(Word(8, {READ}));
    ValueByte(Word(8, {WRITE}));
    ValueByte(Word(8, {EXECUTE}));
    ValueByte(Word(8, {PENDING}));
    ValueByte(Word(8, {MODIFIED}));
    ValueByte(Word(8, {RESTRICTED}));
    ValueByte(FLAGS_ALL);
  }

  /** Bits 6 and 7 of a flag byte are undeclared, so a flag byte never exceeds 0x3F. */
  lemma FlagsBound(f: Flags)
    ensures !f[6] && !f[7]
    ensures FlagsByte(f) <= 0x3F
  {
    ValueByte(f);
  }

  // ------------------------------------------------------------------- SecInfo

  /**
    SECINFO: flags in byte 0, the page class in byte 1, then 31 reserved
    16-bit words. The reserved words are private and both constructors zero
    them, so a value is determined by its flags and class.
  */
  datatype SecInfo = SecInfo(flags: Flags, pageClass: Class)

  /** `SecInfo::reg`: a regular page with the given flags. */
  function SecInfoReg(f: Flags): (r: SecInfo)
    ensures r.pageClass == Reg && r.flags == f
  {
    SecInfo(f, Reg)
  }

  /** `SecInfo::tcs`: a TCS page with no flags. */
  function SecInfoTcs(): (r: SecInfo)
    ensures r.pageClass == Tcs && Value(r.flags) == 0
  {
    WordValues();
    SecInfo(Word(8, {}), Tcs)
  }

  const SECINFO_SIZE: nat := 64

  /** The 64-byte image of a SECINFO. */
  function SecInfoBytes(s: SecInfo): (r: seq<byte>)
    ensures |r| == SECINFO_SIZE
    ensures r[0] == Value(s.flags) && r[1] == ClassCode(s.pageClass)
    ensures AllZero(r[2..])
  {
    [FlagsByte(s.flags), ClassCode(s.pageClass)] + Zeros(62)
  }

  /** The SECINFO a 64-byte image holds, if it is one a constructor can build. */
  function SecInfoOf(b: seq<byte>): (r: Option<SecInfo>)
    requires |b| == SECINFO_SIZE
  {
    Pow2Values();
    var f := OfValue(b[0], 8);
    if Within(f, FLAGS_ALL) && ClassOf(b[1]).Some? && AllZero(b[2..])
    then Some(SecInfo(f, ClassOf(b[1]).value))
    else None
  }

  /** Decoding a SECINFO image gives the record back, and only images of records decode. */
  lemma SecInfoRoundTrip(s: SecInfo, b: seq<byte>)
    requires |b| == SECINFO_SIZE
    ensures SecInfoOf(SecInfoBytes(s)) == Some(s)
    ensures SecInfoOf(b).Some? ==> SecInfoBytes(SecInfoOf(b).value) == b
  {
    Pow2Values();
    OfValueOfWord(s.flags);
    ClassCodeRoundTrip(s.pageClass, s.pageClass, 0);
    var img := SecInfoBytes(s);
    assert img[2..] == Zeros(62);
    if SecInfoOf(b).Some? {
      var v := SecInfoOf(b).value;
      ValueOfValue(b[0], 8);
      ClassCodeRoundTrip(v.pageClass, v.pageClass, b[1]);
      assert b == [b[0], b[1]] + b[2..];
    }
  }

  /** The 48 bytes of a SECINFO that the measurement hashes. */
  function MeasuredSecInfo(s: SecInfo): (r: seq<byte>)
    ensures |r| == 48
  {
    SecInfoBytes(s)[..48]
  }

  /** Both constructors hash as `[flags, class]` followed by 46 zero bytes. */
  lemma MeasuredSecInfoShape(f: Flags)
    ensures MeasuredSecInfo(SecInfoReg(f)) == [Value(f), 2] + Zeros(46)
    ensures MeasuredSecInfo(SecInfoTcs()) == [0, 1] + Zeros(46)
  {
  }
}
