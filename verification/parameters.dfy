/**
  Enclave creation parameters: the MISCSELECT and ATTRIBUTES bit sets, the
  masked wrapper that pairs a value with the bits that matter, and the
  `Parameters` record an enclave author hands to the loader and the signer.

  Bit-set types follow the semantics of the Rust `bitflags` crate: a value
  holds only declared flags, `!v` complements within the declared flags
  only, and a raw integer is narrowed either checked (`from_bits`, which
  rejects undeclared bits) or truncating (`from_bits_truncate`, which drops
  them). The XFRM catalogue comes from an external crate and is not part of
  this model: its declared bits are the parameter `xk` wherever they matter.
*/
module Parameters {
  import opened Bytes
  import opened Bits
  import opened Results

  // ---------------------------------------------------------------- MiscSelect

  /** Bit 0, EXINFO: report page-fault and general-protection information in the SSA on AEX. */
  const EXINFO: nat := 0
  const MISC_ALL: seq<bool> := Word(32, {EXINFO})

  /** A MISCSELECT value: a 32-bit word whose only declared flag is EXINFO. */
  type MiscSelect = m: seq<bool> | Within(m, MISC_ALL) witness Word(32, {})

  /** Complement within the declared flags. */
  function MiscNot(m: MiscSelect): MiscSelect {
    Not(m, MISC_ALL)
  }

  function MiscAnd(a: MiscSelect, b: MiscSelect): MiscSelect {
    And(a, b)
  }

  function MiscOr(a: MiscSelect, b: MiscSelect): MiscSelect {
    Or(a, b)
  }

  // ------------------------------------------------------------------ Features

  const INIT: nat := 0
  const DEBUG: nat := 1
  const MODE64BIT: nat := 2
  const PROVISIONING_KEY: nat := 4
  const EINIT_KEY: nat := 5
  const CET: nat := 6
  const KSS: nat := 7
  const FEATURES_ALL: seq<bool> := Word(64, {INIT, DEBUG, MODE64BIT, PROVISIONING_KEY, EINIT_KEY, CET, KSS})

  /** The non-XSAVE enclave features: a 64-bit word holding declared features only. */
  type Features = f: seq<bool> | Within(f, FEATURES_ALL) witness Word(64, {})

  function FeaturesNot(f: Features): Features {
    Not(f, FEATURES_ALL)
  }

  // ---------------------------------------------------------------------- Xfrm

  /**
    A 64-bit XSAVE feature request mask. Which XFRM bits are declared is
    defined outside this repository; it is the parameter `xk` below.
  */
  type Word64 = w: seq<bool> | |w| == 64 witness Word(64, {})

  // ---------------------------------------------------------------- Attributes

  /** ATTRIBUTES: the features word followed by the XFRM word (16 bytes, 4-byte aligned). */
  datatype Attributes = Attributes(features: Features, xfrm: Word64)

  /** The value holds declared XFRM bits only. */
  predicate AttrValid(a: Attributes, xk: Word64) {
    Within(a.xfrm, xk)
  }

  const ATTR_DEFAULT: Attributes := Attributes(Word(64, {}), Word(64, {}))

  function AttrNot(a: Attributes, xk: Word64): Attributes {
    Attributes(FeaturesNot(a.features), Not(a.xfrm, xk))
  }

  function AttrAnd(a: Attributes, b: Attributes): Attributes {
    Attributes(And(a.features, b.features), And(a.xfrm, b.xfrm))
  }

  function AttrOr(a: Attributes, b: Attributes): Attributes {
    Attributes(Or(a.features, b.features), Or(a.xfrm, b.xfrm))
  }

  function AttrXor(a: Attributes, b: Attributes): Attributes {
    Attributes(Xor(a.features, b.features), Xor(a.xfrm, b.xfrm))
  }

  /** The derived ordering: features compared first, then XFRM, both as unsigned words. */
  predicate AttrLess(a: Attributes, b: Attributes) {
    Value(a.features) < Value(b.features)
    || (Value(a.features) == Value(b.features) && Value(a.xfrm) < Value(b.xfrm))
  }

  /** The 16-byte image: features then XFRM, each a little-endian u64. */
  function AttrBytes(a: Attributes): (r: seq<byte>)
    ensures |r| == 16
  {
    WordBytes(a.features, 8) + WordBytes(a.xfrm, 8)
  }

  // -------------------------------------------------------------------- Masked

  /** The bitwise operators a masked type needs, passed explicitly. */
  datatype BitOps<!T> = BitOps(and: (T, T) -> T, or: (T, T) -> T, not: T -> T, empty: T)

  /** A value together with the mask of the bits that are enforced. */
  datatype Masked<T> = Masked(data: T, mask: T)

  /** `Masked::from(v)`: the value itself, with every declared bit enforced. */
  function FromValue<T>(ops: BitOps<T>, v: T): Masked<T> {
    Masked(v, ops.or(v, ops.not(v)))
  }

  /** `Masked::default()`: the default value, fully enforced. */
  function DefaultMasked<T>(ops: BitOps<T>): Masked<T> {
    FromValue(ops, ops.empty)
  }

  /** The masked comparison `mask & data == mask & other`. */
  predicate Matches<T(==)>(ops: BitOps<T>, m: Masked<T>, other: T) {
    ops.and(m.mask, m.data) == ops.and(m.mask, other)
  }

  const MISC_OPS: BitOps<MiscSelect> := BitOps<MiscSelect>.BitOps(MiscAnd, MiscOr, MiscNot, Word(32, {}))

  function AttrOps(xk: Word64): BitOps<Attributes> {
    BitOps<Attributes>.BitOps(AttrAnd, AttrOr, a => AttrNot(a, xk), ATTR_DEFAULT)
  }

  /** The 8-byte image of a masked MISCSELECT: data then mask. */
  function MaskedMiscBytes(m: Masked<MiscSelect>): (r: seq<byte>)
    ensures |r| == 8
  {
    WordBytes(m.data, 4) + WordBytes(m.mask, 4)
  }

  /** The 32-byte image of masked ATTRIBUTES: data then mask. */
  function MaskedAttrBytes(m: Masked<Attributes>): (r: seq<byte>)
    ensures |r| == 32
  {
    AttrBytes(m.data) + AttrBytes(m.mask)
  }

  // ---------------------------------------------------------------- Parameters

  /** Enclave parameters: masked MISCSELECT and ATTRIBUTES, product id and security version. */
  datatype Parameters = Parameters(misc: Masked<MiscSelect>, attr: Masked<Attributes>, isvProdId: u16, isvSvn: u16)

  /** `Parameters::default()`: zero ids, and the default values with every declared bit enforced. */
  function DefaultParameters(xk: Word64): (r: Parameters)
    ensures r.isvProdId == 0 && r.isvSvn == 0
    ensures r.misc.data == Word(32, {}) && r.misc.mask == MISC_ALL
    ensures r.attr.data == ATTR_DEFAULT && r.attr.mask == Attributes(FEATURES_ALL, xk)
  {
    Parameters(DefaultMasked(MISC_OPS), DefaultMasked(AttrOps(xk)), 0, 0)
  }

  // -------------------------------------------------------------------- Lemmas

  /** Bit 3 is the one undeclared position among the low eight feature bits, so all features are 0xF7. */
  lemma FeatureBits()
    ensures forall i :: 0 <= i < 8 ==> (FEATURES_ALL[i] <==> i != 3)
    ensures forall i :: 8 <= i < 64 ==> !FEATURES_ALL[i]
    ensures Value(FEATURES_ALL) == 0xF7
  {
    LowByteValue(FEATURES_ALL);
    ValueByte(FEATURES_ALL[..8]);
  }

  /** EXINFO, bit 0, is the only MISCSELECT bit declared, so all of MISCSELECT is 1. */
  lemma MiscBits()
    ensures MISC_ALL[0] && forall i :: 1 <= i < 32 ==> !MISC_ALL[i]
    ensures Value(MISC_ALL) == 1
  {
    LowByteValue(MISC_ALL);
    ValueByte(MISC_ALL[..8]);
  }

  /** A masked MISCSELECT matches a value exactly when the two agree on every enforced bit. */
  lemma MiscMatchesIff(m: Masked<MiscSelect>, w: MiscSelect)
    ensures Matches(MISC_OPS, m, w) <==> forall i :: 0 <= i < 32 && m.mask[i] ==> m.data[i] == w[i]
  {
    if forall i :: 0 <= i < 32 && m.mask[i] ==> m.data[i] == w[i] {
      assert And(m.mask, m.data) == And(m.mask, w);
    }
    if Matches(MISC_OPS, m, w) {
      forall i | 0 <= i < 32 && m.mask[i]
        ensures m.data[i] == w[i]
      {
        assert And(m.mask, m.data)[i] == And(m.mask, w)[i];
      }
    }
  }

  /** Masked ATTRIBUTES match a value exactly when features and XFRM agree on every enforced bit. */
  lemma AttrMatchesIff(xk: Word64, m: Masked<Attributes>, w: Attributes)
    ensures Matches(AttrOps(xk), m, w) <==>
      (forall i :: 0 <= i < 64 && m.mask.features[i] ==> m.data.features[i] == w.features[i])
      && (forall i :: 0 <= i < 64 && m.mask.xfrm[i] ==> m.data.xfrm[i] == w.xfrm[i])
  {
    var agree := (forall i :: 0 <= i < 64 && m.mask.features[i] ==> m.data.features[i] == w.features[i])
      && (forall i :: 0 <= i < 64 && m.mask.xfrm[i] ==> m.data.xfrm[i] == w.xfrm[i]);
    if agree {
      assert And(m.mask.features, m.data.features) == And(m.mask.features, w.features);
      assert And(m.mask.xfrm, m.data.xfrm) == And(m.mask.xfrm, w.xfrm);
    }
    if Matches(AttrOps(xk), m, w) {
      forall i | 0 <= i < 64 && m.mask.features[i]
        ensures m.data.features[i] == w.features[i]
      {
        assert And(m.mask.features, m.data.features)[i] == And(m.mask.features, w.features)[i];
      }
      forall i | 0 <= i < 64 && m.mask.xfrm[i]
        ensures m.data.xfrm[i] == w.xfrm[i]
      {
        assert And(m.mask.xfrm, m.data.xfrm)[i] == And(m.mask.xfrm, w.xfrm)[i];
      }
    }
  }

  /** `v | !v` is the set of all declared flags, whatever `v` is. */
  lemma FromValueMaskIsAll(v: MiscSelect, a: Attributes, xk: Word64)
    requires AttrValid(a, xk)
    ensures FromValue(MISC_OPS, v).mask == MISC_ALL
    ensures FromValue(AttrOps(xk), a).mask == Attributes(FEATURES_ALL, xk)
  {
    NotLaws(v, v, MISC_ALL);
    NotLaws(a.features, a.features, FEATURES_ALL);
    NotLaws(a.xfrm, a.xfrm, xk);
  }

  /** A masked value built from `v` matches exactly `v`: every declared bit must agree. */
  lemma MiscFromMatchesIff(v: MiscSelect, w: MiscSelect)
    ensures Matches(MISC_OPS, FromValue(MISC_OPS, v), w) <==> v == w
  {
    FromValueMaskIsAll(v, ATTR_DEFAULT, Word(64, {}));
    AndAll(v, MISC_ALL);
    AndAll(w, MISC_ALL);
  }

  lemma AttrFromMatchesIff(xk: Word64, v: Attributes, w: Attributes)
    requires AttrValid(v, xk) && AttrValid(w, xk)
    ensures Matches(AttrOps(xk), FromValue(AttrOps(xk), v), w) <==> v == w
  {
    FromValueMaskIsAll(Word(32, {}), v, xk);
    AndAll(v.features, FEATURES_ALL);
    AndAll(w.features, FEATURES_ALL);
    AndAll(v.xfrm, xk);
    AndAll(w.xfrm, xk);
  }

  /** With nothing enforced, every value matches. */
  lemma EmptyMaskMatchesEverything(d: MiscSelect, w: MiscSelect, da: Attributes, wa: Attributes, xk: Word64)
    ensures Matches(MISC_OPS, Masked(d, Word(32, {})), w)
    ensures Matches(AttrOps(xk), Masked(da, ATTR_DEFAULT), wa)
  {
    AndEmpty(d);
    AndEmpty(w);
    AndEmpty(da.features);
    AndEmpty(wa.features);
    AndEmpty(da.xfrm);
    AndEmpty(wa.xfrm);
  }

  /** Complement of Attributes is taken componentwise within the declared flags. */
  lemma AttrNotLaws(xk: Word64, a: Attributes, b: Attributes)
    requires AttrValid(a, xk) && AttrValid(b, xk)
    ensures AttrValid(AttrNot(a, xk), xk)
    ensures AttrNot(AttrNot(a, xk), xk) == a
    ensures AttrOr(a, AttrNot(a, xk)) == Attributes(FEATURES_ALL, xk)
    ensures AttrAnd(a, AttrNot(a, xk)) == ATTR_DEFAULT
    ensures AttrNot(AttrAnd(a, b), xk) == AttrOr(AttrNot(a, xk), AttrNot(b, xk))
    ensures AttrXor(a, b) == AttrAnd(AttrOr(a, b), AttrNot(AttrAnd(a, b), xk))
  {
    NotLaws(a.features, b.features, FEATURES_ALL);
    NotLaws(a.xfrm, b.xfrm, xk);
  }

  /** The derived ordering on Attributes is a strict total order. */
  lemma AttrLessIsStrictTotalOrder(a: Attributes, b: Attributes, c: Attributes)
    ensures !AttrLess(a, a)
    ensures AttrLess(a, b) && AttrLess(b, c) ==> AttrLess(a, c)
    ensures a != b ==> (AttrLess(a, b) <==> !AttrLess(b, a))
  {
    ValueInjective(a.features, b.features);
    ValueInjective(a.xfrm, b.xfrm);
  }
}
