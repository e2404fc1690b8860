/**
  Fixed-width bit sets, least significant bit first. A `w`-bit word is a
  sequence of `w` booleans; `Value` reads it as an unsigned number and
  `OfValue` writes a number back. A bit-set TYPE is described by the word
  of the flags it declares (`all`); a value of the type holds only declared
  flags, and complement is taken within the declared flags, as the Rust
  `bitflags` crate does.
*/
module Bits {
  import opened Results
  import opened Bytes

  function Pow2(w: nat): (r: nat)
    ensures r >= 1
  {
    if w == 0 then 1 else 2 * Pow2(w - 1)
  }

  lemma {:induction false} Pow2Add(a: nat, b: nat)
    ensures Pow2(a + b) == Pow2(a) * Pow2(b)
  {
    if a > 0 {
      Pow2Add(a - 1, b);
    }
  }

  lemma Pow2Values()
    ensures Pow2(8) == 0x100
    ensures Pow2(16) == 0x1_0000
    ensures Pow2(32) == 0x1_0000_0000
    ensures Pow2(64) == 0x1_0000_0000_0000_0000
  {
    assert Pow2(8) == 256;
    Pow2Add(8, 8);
    Pow2Add(16, 16);
    Pow2Add(32, 32);
  }

  /** The unsigned number a word denotes. */
  function Value(b: seq<bool>): nat {
    if |b| == 0 then 0 else (if b[0] then 1 else 0) + 2 * Value(b[1..])
  }

  /** The `w`-bit word of `n`. */
  function OfValue(n: nat, w: nat): (r: seq<bool>)
    requires n < Pow2(w)
    ensures |r| == w
  {
    if w == 0 then [] else [n % 2 == 1] + OfValue(n / 2, w - 1)
  }

  /** The word with exactly the listed bit positions set. */
  function Word(w: nat, positions: set<nat>): (r: seq<bool>)
    ensures |r| == w
    ensures forall i :: 0 <= i < w ==> (r[i] <==> i in positions)
  {
    seq(w, i => i in positions)
  }

  function And(a: seq<bool>, b: seq<bool>): (r: seq<bool>)
    requires |a| == |b|
    ensures |r| == |a|
    ensures forall i :: 0 <= i < |a| ==> (r[i] <==> a[i] && b[i])
  {
    seq(|a|, i requires 0 <= i < |a| => a[i] && b[i])
  }

  function Or(a: seq<bool>, b: seq<bool>): (r: seq<bool>)
    requires |a| == |b|
    ensures |r| == |a|
    ensures forall i :: 0 <= i < |a| ==> (r[i] <==> a[i] || b[i])
  {
    seq(|a|, i requires 0 <= i < |a| => a[i] || b[i])
  }

  function Xor(a: seq<bool>, b: seq<bool>): (r: seq<bool>)
    requires |a| == |b|
    ensures |r| == |a|
    ensures forall i :: 0 <= i < |a| ==> (r[i] <==> a[i] != b[i])
  {
    seq(|a|, i requires 0 <= i < |a| => a[i] != b[i])
  }

  /** `!a` of a bit-set type: the declared flags `a` does not hold. */
  function Not(a: seq<bool>, all: seq<bool>): (r: seq<bool>)
    requires |a| == |all|
    ensures |r| == |a|
    ensures forall i :: 0 <= i < |a| ==> (r[i] <==> !a[i] && all[i])
  {
    seq(|a|, i requires 0 <= i < |a| => !a[i] && all[i])
  }

  /** The word holds declared flags only. */
  predicate Within(a: seq<bool>, all: seq<bool>) {
    |a| == |all| && forall i :: 0 <= i < |a| && a[i] ==> all[i]
  }

  /** `from_bits`: the raw word if it holds declared flags only. */
  function Checked(a: seq<bool>, all: seq<bool>): (r: Option<seq<bool>>)
    requires |a| == |all|
    ensures r.Some? <==> Within(a, all)
    ensures r.Some? ==> r.value == a
  {
    if Within(a, all) then Some(a) else None
  }

  /** `from_bits_truncate`: the raw word with undeclared bits dropped. */
  function Truncate(a: seq<bool>, all: seq<bool>): (r: seq<bool>)
    requires |a| == |all|
    ensures Within(r, all)
    ensures forall i :: 0 <= i < |a| && all[i] ==> r[i] == a[i]
  {
    And(a, all)
  }

  /** The little-endian image of a word of `n` bytes. */
  function WordBytes(w: seq<bool>, n: nat): (r: seq<byte>)
    requires |w| == 8 * n
    ensures |r| == n && FromLE(r) == Value(w)
  {
    ValueBound(w);
    Pow2Pow256(n);
    FromLEOfLE(Value(w), n);
    LE(Value(w), n)
  }

  /** The word a little-endian field holds. */
  function WordOf(b: seq<byte>): (r: seq<bool>)
    ensures |r| == 8 * |b| && Value(r) == FromLE(b)
  {
    FromLEBound(b);
    Pow2Pow256(|b|);
    ValueOfValue(FromLE(b), 8 * |b|);
    OfValue(FromLE(b), 8 * |b|)
  }

  /** A word and its little-endian image determine each other. */
  lemma WordBytesRoundTrip(w: seq<bool>, b: seq<byte>)
    requires |w| % 8 == 0
    ensures WordOf(WordBytes(w, |w| / 8)) == w
    ensures WordBytes(WordOf(b), |b|) == b
  {
    var n := |w| / 8;
    ValueInjective(WordOf(WordBytes(w, n)), w);
    LEOfFromLE(b);
  }

  lemma {:induction false} Pow2Pow256(n: nat)
    ensures Pow2(8 * n) == Pow256(n)
  {
    if n > 0 {
      Pow2Pow256(n - 1);
      Pow2Add(8 * (n - 1), 8);
      assert Pow2(8) == 256;
    }
  }

  // ------------------------------------------------------------------ Lemmas

  lemma {:induction false} ValueBound(b: seq<bool>)
    ensures Value(b) < Pow2(|b|)
  {
    if |b| > 0 {
      ValueBound(b[1..]);
    }
  }

  lemma {:induction false} ValueOfValue(n: nat, w: nat)
    requires n < Pow2(w)
    ensures Value(OfValue(n, w)) == n
  {
    if w > 0 {
      ValueOfValue(n / 2, w - 1);
      assert OfValue(n, w)[1..] == OfValue(n / 2, w - 1);
    }
  }

  lemma {:induction false} OfValueOfWord(b: seq<bool>)
    ensures Value(b) < Pow2(|b|)
    ensures OfValue(Value(b), |b|) == b
  {
    ValueBound(b);
    if |b| > 0 {
      OfValueOfWord(b[1..]);
      assert b == [b[0]] + b[1..];
    }
  }

  /** A word with no bit set denotes 0. */
  lemma {:induction false} ValueZero(w: nat)
    ensures Value(Word(w, {})) == 0
  {
    if w > 0 {
      ValueZero(w - 1);
      assert Word(w, {})[1..] == Word(w - 1, {});
    }
  }

  /** The low bits of a word count once, the high bits scaled by the width of the low part. */
  lemma {:induction false} ValueSplit(a: seq<bool>, b: seq<bool>)
    ensures Value(a + b) == Value(a) + Pow2(|a|) * Value(b)
  {
    if |a| > 0 {
      var t := a[1..];
      ValueSplit(t, b);
      assert (a + b)[1..] == t + b;
      assert (a + b)[0] == a[0];
      var bit := if a[0] then 1 else 0;
      var vt, vb, p := Value(t), Value(b), Pow2(|t|);
      assert Value(a + b) == bit + 2 * Value(t + b);
      assert Value(t + b) == vt + p * vb;
      assert Value(a) == bit + 2 * vt;
      assert Pow2(|a|) == 2 * p;
      Distribute(vt, p, vb);
    } else {
      assert a + b == b;
    }
  }

  lemma Distribute(x: int, y: int, z: int)
    ensures 2 * (x + y * z) == 2 * x + (2 * y) * z
  {
  }

  /** `Value` unfolded over the eight bits of a byte-wide word. */
  lemma ValueByte(w: seq<bool>)
    requires |w| == 8
    ensures Value(w) == (if w[0] then 1 else 0) + (if w[1] then 2 else 0) + (if w[2] then 4 else 0)
                      + (if w[3] then 8 else 0) + (if w[4] then 16 else 0) + (if w[5] then 32 else 0)
                      + (if w[6] then 64 else 0) + (if w[7] then 128 else 0)
  {
    var lo, hi := w[..4], w[4..];
    assert w == lo + hi;
    ValueSplit(lo, hi);
    assert Pow2(4) == 16;
    ValueNibble(lo);
    ValueNibble(hi);
    assert lo[0] == w[0] && lo[1] == w[1] && lo[2] == w[2] && lo[3] == w[3];
    assert hi[0] == w[4] && hi[1] == w[5] && hi[2] == w[6] && hi[3] == w[7];
  }

  /** `Value` unfolded over the four bits of a nibble. */
  lemma ValueNibble(w: seq<bool>)
    requires |w| == 4
    ensures Value(w) == (if w[0] then 1 else 0) + (if w[1] then 2 else 0) + (if w[2] then 4 else 0)
                      + (if w[3] then 8 else 0)
  {
    assert w[1..][1..] == w[2..] && w[2..][1..] == w[3..] && w[3..][1..] == [];
    assert Value(w[3..]) == (if w[3] then 1 else 0);
    assert Value(w[2..]) == (if w[2] then 1 else 0) + 2 * Value(w[3..]);
    assert Value(w[1..]) == (if w[1] then 1 else 0) + 2 * Value(w[2..]);
  }

  /** A word whose set bits all lie in its low byte denotes the value of that byte. */
  lemma LowByteValue(w: seq<bool>)
    requires |w| >= 8
    requires forall i :: 8 <= i < |w| ==> !w[i]
    ensures Value(w) == Value(w[..8])
  {
    ValueSplit(w[..8], w[8..]);
    assert w[8..] == Word(|w| - 8, {});
    ValueZero(|w| - 8);
    assert w == w[..8] + w[8..];
  }

  /** Words of one width are equal exactly when their values are. */
  lemma ValueInjective(a: seq<bool>, b: seq<bool>)
    requires |a| == |b|
    ensures Value(a) == Value(b) <==> a == b
  {
    if Value(a) == Value(b) {
      OfValueOfWord(a);
      OfValueOfWord(b);
    }
  }

  /** Truncation agrees with a successful checked narrowing, and is idempotent. */
  lemma TruncateAgrees(a: seq<bool>, all: seq<bool>)
    requires |a| == |all|
    ensures Checked(a, all).Some? <==> Truncate(a, all) == a
    ensures Truncate(Truncate(a, all), all) == Truncate(a, all)
  {
    if Truncate(a, all) == a {
      assert forall i :: 0 <= i < |a| && a[i] ==> all[i] by {
        forall i | 0 <= i < |a| && a[i]
          ensures all[i]
        {
          assert Truncate(a, all)[i];
        }
      }
    }
  }

  /** Complement within the declared flags: closed, an involution, and `a | !a` is everything. */
  lemma NotLaws(a: seq<bool>, b: seq<bool>, all: seq<bool>)
    requires Within(a, all) && Within(b, all)
    ensures Within(Not(a, all), all)
    ensures Not(Not(a, all), all) == a
    ensures Or(a, Not(a, all)) == all
    ensures And(a, Not(a, all)) == Word(|a|, {})
    ensures Not(And(a, b), all) == Or(Not(a, all), Not(b, all))
    ensures Xor(a, b) == And(Or(a, b), Not(And(a, b), all))
  {
  }

  /** Within the declared flags, the complete mask selects the value itself. */
  lemma AndAll(a: seq<bool>, all: seq<bool>)
    requires Within(a, all)
    ensures And(all, a) == a
  {
  }

  /** An empty mask selects nothing. */
  lemma AndEmpty(a: seq<bool>)
    ensures And(Word(|a|, {}), a) == Word(|a|, {})
  {
  }
}
