/**
  The State Save Area frame (section 38.9 of the Intel SDM, volume 3D):
  where the processor saves an enclave thread's state on an asynchronous
  exit, and the EXITINFO word that tells what caused the exit. The
  XSAVE region is kept as the bytes it occupies.
*/
module Ssa {
  import opened Bytes
  import opened Results
  import opened Layout

  /** The kind of exception an EXITINFO word reports (Table 38-9). */
  datatype ExitType = Hardware | Software

  datatype GenPurposeRegs = GenPurposeRegs(
    rax: u64, rcx: u64, rdx: u64, rbx: u64, rsp: u64, rbp: u64, rsi: u64, rdi: u64,
    r8: u64, r9: u64, r10: u64, r11: u64, r12: u64, r13: u64, r14: u64, r15: u64,
    rflags: u64, rip: u64, ursp: u64, urbp: u64,
    exitinfo: u32, reserved: u32,
    fsbase: u64, gsbase: u64)

  datatype ExInfo = ExInfo(maddr: u64, errcd: u32, reserved: u32)

  datatype Misc = Misc(exinfo: ExInfo)

  /** An SSA frame with the default 824 bytes of padding between the XSAVE region and MISC. */
  datatype StateSaveArea = StateSaveArea(xsave: seq<byte>, extra: seq<byte>, misc: Misc, gpr: GenPurposeRegs)

  const XSAVE_SIZE: nat := 3072
  const EXTRA_SIZE: nat := 824

  predicate Valid(s: StateSaveArea) {
    |s.xsave| == XSAVE_SIZE && |s.extra| == EXTRA_SIZE
  }

  /** The field sizes of the records, in declaration order. */
  const GPR_SIZES: seq<nat> := [8, 8, 8, 8, 8, 8, 8, 8, 8, 8, 8, 8, 8, 8, 8, 8, 8, 8, 8, 8, 4, 4, 8, 8]
  const EXINFO_SIZES: seq<nat> := [8, 4, 4]
  const MISC_SIZES: seq<nat> := [16]
  const SSA_SIZES: seq<nat> := [XSAVE_SIZE, EXTRA_SIZE, 16, 184]

  /** Bit 31 of EXITINFO: the other fields are valid. */
  const VALID: nat := 0x8000_0000

  /**
    The fields of an EXITINFO word (Table 38-9): the exception vector in
    bits 7:0, the exit type in bits 10:8, reserved bits 30:11, and the
    valid bit 31.
  */
  datatype ExitInfo = ExitInfo(vector: byte, exitType: nat, reserved: nat, valid: bool)

  predicate FieldsFit(x: ExitInfo) {
    x.exitType < 8 && x.reserved < 0x10_0000
  }

  /** The fields a word holds. */
  function ExitInfoOf(e: u32): (x: ExitInfo)
    ensures FieldsFit(x)
  {
    ExitInfo(e % 256, e / 256 % 8, e / 2048 % 0x10_0000, e >= VALID)
  }

  /** The word that holds the fields. */
  function ExitInfoWord(x: ExitInfo): (e: u32)
    requires FieldsFit(x)
  {
    x.vector + 256 * x.exitType + 2048 * x.reserved + (if x.valid then VALID else 0)
  }

  /** A word and its fields determine each other. */
  lemma ExitInfoRoundTrip(e: u32, x: ExitInfo)
    requires FieldsFit(x)
    ensures ExitInfoWord(ExitInfoOf(e)) == e
    ensures ExitInfoOf(ExitInfoWord(x)) == x
  {
    WordOfFields(e);
    FieldsOfWord(x);
  }

  lemma WordOfFields(e: u32)
    ensures ExitInfoWord(ExitInfoOf(e)) == e
  {
    var q1 := e / 256;
    var q2 := q1 / 8;
    var v, t, r := e % 256, q1 % 8, q2 % 0x10_0000;
    assert q2 < 0x20_0000;
    Split2048(e, v + 256 * t, q2);
  }

  lemma FieldsOfWord(x: ExitInfo)
    requires FieldsFit(x)
    ensures ExitInfoOf(ExitInfoWord(x)) == x
  {
    var e := ExitInfoWord(x);
    var b := if x.valid then 1 else 0;
    var high := x.reserved + 0x10_0000 * b;
    Split256(e, x.vector, x.exitType + 8 * high);
    Split8(e / 256, x.exitType, high);
    Split2048(e, x.vector + 256 * x.exitType, high);
    Split2Pow20(high, x.reserved, b);
  }

  /** A number `a + m·b` with `a < m` has remainder `a` and quotient `b`, for each divisor a word is cut at. */
  lemma Split8(n: int, a: int, b: int)
    requires 0 <= a < 8 && n == a + 8 * b
    ensures n % 8 == a && n / 8 == b
  {
  }

  lemma Split256(n: int, a: int, b: int)
    requires 0 <= a < 256 && n == a + 256 * b
    ensures n % 256 == a && n / 256 == b
  {
  }

  lemma Split2048(n: int, a: int, b: int)
    requires 0 <= a < 2048 && n == a + 2048 * b
    ensures n % 2048 == a && n / 2048 == b
  {
  }

  lemma Split2Pow20(n: int, a: int, b: int)
    requires 0 <= a < 0x10_0000 && n == a + 0x10_0000 * b
    ensures n % 0x10_0000 == a && n / 0x10_0000 == b
  {
  }

  /**
    `StateSaveArea::exit_type`: nothing unless the valid bit is set; then
    exit type 3 is a hardware exception, 6 a software one, and any other
    value is no exit type. `exitinfo & VALID` is bit 31 and
    `(exitinfo >> 8) & 0b111` bits 10:8.
  */
  function ExitTypeOf(s: StateSaveArea): (r: Option<ExitType>)
    ensures s.gpr.exitinfo < VALID ==> r.None?
  {
    var e := s.gpr.exitinfo;
    if e / VALID % 2 == 0 then None
    else
      match e / 256 % 8
      case 3 => Some(Hardware)
      case 6 => Some(Software)
      case _ => None
  }

  /**
    `StateSaveArea::vector`: nothing unless the valid bit is set; then the
    low byte of EXITINFO, which the `as u8` cast keeps.
  */
  function VectorOf(s: StateSaveArea): (r: Option<byte>)
    ensures r.Some? <==> s.gpr.exitinfo >= VALID
  {
    var e := s.gpr.exitinfo;
    if e / VALID % 2 == 0 then None else Some(e % 256)
  }

  /**
    What the accessors read from the fields of EXITINFO: an exit type only
    from a valid word whose type field is 3 or 6, and the vector field of
    any valid word. The reserved bits play no part.
  */
  lemma AccessorsReadFields(s: StateSaveArea)
    ensures var x := ExitInfoOf(s.gpr.exitinfo);
      ExitTypeOf(s) == (if x.valid && x.exitType == 3 then Some(Hardware)
                        else if x.valid && x.exitType == 6 then Some(Software)
                        else None)
      && VectorOf(s) == (if x.valid then Some(x.vector) else None)
  {
  }

  /** Both accessors agree on whether the word is valid: an exit type comes with a vector. */
  lemma ExitTypeHasVector(s: StateSaveArea)
    ensures ExitTypeOf(s).Some? ==> VectorOf(s).Some?
    ensures VectorOf(s).None? <==> ExitInfoOf(s.gpr.exitinfo).valid == false
  {
  }

  /**
    The general purpose register block is 184 bytes: RAX to URBP eight
    bytes apart from 0, EXITINFO at 160, its reserved word at 164, FSBASE
    at 168 and GSBASE at 176.
  */
  lemma GprLayout()
    ensures forall i :: 0 <= i <= 20 ==> Offset(GPR_SIZES, i) == 8 * i
    ensures Offset(GPR_SIZES, 21) == 164 && Offset(GPR_SIZES, 22) == 168
    ensures Offset(GPR_SIZES, 23) == 176 && Offset(GPR_SIZES, 24) == 184
    ensures Sum(GPR_SIZES) == 184
  {
    var s := GPR_SIZES;
    forall i | 0 <= i <= 20
      ensures Offset(s, i) == 8 * i
    {
      RegisterOffset(i);
    }
    RegisterOffset(20);
    OffsetBounds(s, 20);
    OffsetBounds(s, 21);
    OffsetBounds(s, 22);
    OffsetBounds(s, 23);
    assert s[..24] == s;
  }

  /** The first twenty registers are eight bytes each. */
  lemma {:induction false} RegisterOffset(i: nat)
    requires i <= 20
    ensures Offset(GPR_SIZES, i) == 8 * i
  {
    if i == 0 {
      assert GPR_SIZES[..0] == [];
    } else {
      RegisterOffset(i - 1);
      OffsetBounds(GPR_SIZES, i - 1);
    }
  }

  /** EXINFO is 16 bytes: MADDR at 0, ERRCD at 8, the reserved word at 12; MISC is EXINFO alone. */
  lemma ExInfoLayout()
    ensures Sum(EXINFO_SIZES) == 16 && Offsets(EXINFO_SIZES) == [0, 8, 12, 16]
    ensures Sum(MISC_SIZES) == 16 && Offsets(MISC_SIZES) == [0, 16]
  {
    var s := EXINFO_SIZES;
    assert s[..0] == [];
    OffsetBounds(s, 0);
    OffsetBounds(s, 1);
    OffsetBounds(s, 2);
    assert s[..3] == s;
    OffsetsAre(s, [0, 8, 12, 16]);
    assert MISC_SIZES[..0] == [];
    OffsetBounds(MISC_SIZES, 0);
    assert MISC_SIZES[..1] == MISC_SIZES;
    OffsetsAre(MISC_SIZES, [0, 16]);
  }

  /**
    The frame is one page: the XSAVE region at 0, the padding at 3072,
    MISC at 3896 and the register block at 3912, so that EXITINFO is the
    u32 at 4072 of the frame.
  */
  lemma SsaLayout()
    ensures Sum(SSA_SIZES) == 4096 && Sum(SSA_SIZES) % 4096 == 0
    ensures Offsets(SSA_SIZES) == [0, 3072, 3896, 3912, 4096]
    ensures Offsets(SSA_SIZES)[3] + Offset(GPR_SIZES, 20) == 4072
  {
    var s := SSA_SIZES;
    assert s[..0] == [];
    OffsetBounds(s, 0);
    OffsetBounds(s, 1);
    OffsetBounds(s, 2);
    OffsetBounds(s, 3);
    assert s[..4] == s;
    OffsetsAre(s, [0, 3072, 3896, 3912, 4096]);
    GprLayout();
  }
}
