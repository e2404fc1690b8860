/**
  Signing SIGSTRUCT with an RSA-3072 key and SHA-256 (the rcrypto backend).
  RSASSA-PKCS1-v1_5 (section 8.2 of RFC 8017), SHA-256 and key generation
  are function parameters: the model fixes what they are given and what is
  done with what they return. The big-number arithmetic that follows the
  signature (the auxiliaries `q1` and `q2` the SGX instruction EINIT uses to
  check it) is modelled exactly on unbounded naturals.
*/
module Crypto {
  import opened Bytes
  import opened Results
  import Digest

  /** Byte width of every RSA number SIGSTRUCT stores: a 3072-bit modulus. */
  const RSA_SIZE: nat := 384

  /** `SigData`: what signing hands back to SIGSTRUCT. */
  datatype SigData = SigData(signature: seq<byte>, modulus: seq<byte>, exponent: u32, q1: seq<byte>, q2: seq<byte>)

  predicate SigDataValid(d: SigData) {
    |d.signature| == RSA_SIZE && |d.modulus| == RSA_SIZE && |d.q1| == RSA_SIZE && |d.q2| == RSA_SIZE
  }

  /**
    The public half of an RSA private key, modulus `n` and public exponent
    `e`; the private half never leaves the signing primitive.
  */
  datatype RsaKey = RsaKey(n: nat, e: nat)

  /** `RS256PrivateKey`: a key `new` accepted. */
  datatype Rs256Key = Rs256Key(key: RsaKey)

  /**
    Why a call did not return normally: the RSA library's own error, passed
    through unchanged, or a panic (a failed assertion or `unwrap`, a length
    mismatch in `copy_from_slice`, a division by zero).
  */
  datatype Error<E> = Library(error: E) | Panic

  /** `RS256PrivateKey::new`: panics unless the modulus has at most 3072 bits. */
  function NewKey<E>(key: RsaKey): (r: Result<Rs256Key, Error<E>>)
    ensures r.Success? <==> key.n < Pow256(RSA_SIZE)
    ensures r.Success? ==> r.value.key == key
    ensures r.Failure? ==> r.error == Panic
  {
    if key.n < Pow256(RSA_SIZE) then Success(Rs256Key(key)) else Failure(Panic)
  }

  /**
    `RS256PrivateKey::generate`: asks the key generator for a 3072-bit key
    with the given public exponent; its randomness is the generator's.
  */
  function Generate<E>(exponent: byte, keygen: (nat, nat) -> Result<RsaKey, E>): (r: Result<Rs256Key, Error<E>>)
    ensures keygen(RSA_SIZE * 8, exponent).Failure? ==> r == Failure(Library(keygen(RSA_SIZE * 8, exponent).error))
    ensures r.Success? ==> keygen(RSA_SIZE * 8, exponent) == Success(r.value.key) && r.value.key.n < Pow256(RSA_SIZE)
    ensures keygen(RSA_SIZE * 8, exponent).Success? ==> r == NewKey(keygen(RSA_SIZE * 8, exponent).value)
  {
    match keygen(RSA_SIZE * 8, exponent)
    case Failure(e) => Failure(Library(e))
    case Success(key) => NewKey(key)
  }

  /** The SHA-256 hash signed: the author block, then the body block, fed to one digest. */
  function MessageHash(author: seq<byte>, body: seq<byte>, sha256: seq<byte> -> seq<byte>): (r: seq<byte>)
    ensures r == sha256(author + body)
  {
    Digest.ChainLaws(Digest.EMPTY, author, body);
    Digest.Finish(Digest.Chain(Digest.Chain(Digest.EMPTY, author), body), sha256)
  }

  /** The 384-byte little-endian image of a number, zero-padded; a wider number panics. */
  function ArrFromBig(v: nat): (r: Option<seq<byte>>)
    ensures r.Some? <==> v < Pow256(RSA_SIZE)
    ensures r.Some? ==> |r.value| == RSA_SIZE && FromLE(r.value) == v
  {
    if v < Pow256(RSA_SIZE) then
      FromLEOfLE(v, RSA_SIZE);
      Some(LE(v, RSA_SIZE))
    else None
  }

  /**
    `BigUint::to_bytes_le`: the shortest little-endian encoding, one byte
    for zero and no zero byte at the most significant end otherwise.
  */
  function MinimalLE(v: nat): (r: seq<byte>)
    ensures |r| >= 1
    decreases v
  {
    if v < 256 then [v] else [v % 256] + MinimalLE(v / 256)
  }

  lemma {:induction false} MinimalLEValue(v: nat)
    ensures FromLE(MinimalLE(v)) == v
    decreases v
  {
    if v >= 256 {
      MinimalLEValue(v / 256);
      assert MinimalLE(v)[1..] == MinimalLE(v / 256);
    } else {
      assert MinimalLE(v)[1..] == [];
    }
  }

  /** The shortest encoding fits in `w` bytes exactly when the number does. */
  lemma {:induction false} MinimalLELength(v: nat, w: nat)
    requires w >= 1
    ensures |MinimalLE(v)| <= w <==> v < Pow256(w)
    decreases v
  {
    if v >= 256 && w > 1 {
      MinimalLELength(v / 256, w - 1);
    }
  }

  /**
    `arr_from_big` as written: copies the shortest encoding into a 384-byte
    array, which panics unless that encoding is exactly 384 bytes long.
  */
  function ArrFromBigAsWritten(v: nat): (r: Option<seq<byte>>)
    ensures r.Some? ==> |r.value| == RSA_SIZE && FromLE(r.value) == v
  {
    MinimalLEValue(v);
    var buf := MinimalLE(v);
    if |buf| == RSA_SIZE then Some(buf) else None
  }

  /**
    As written, `arr_from_big` succeeds only for numbers whose top byte is
    not zero, and then agrees with the zero-padded encoding; every number
    below 256^383 (the value 1, say, or a signature whose top byte happens
    to be zero) panics although it has a 384-byte encoding.
  */
  lemma ArrFromBigAsWrittenPanics(v: nat)
    ensures ArrFromBigAsWritten(v).Some? <==> Pow256(RSA_SIZE - 1) <= v < Pow256(RSA_SIZE)
    ensures ArrFromBigAsWritten(v).Some? ==> ArrFromBigAsWritten(v) == ArrFromBig(v)
    ensures v < Pow256(RSA_SIZE - 1) ==> ArrFromBigAsWritten(v) == None && ArrFromBig(v).Some?
  {
    MinimalLELength(v, RSA_SIZE);
    MinimalLELength(v, RSA_SIZE - 1);
    if ArrFromBigAsWritten(v).Some? {
      LEOfFromLE(MinimalLE(v));
    }
    assert Pow256(RSA_SIZE) == 256 * Pow256(RSA_SIZE - 1);
  }

  /** The smallest witness: the number 1. */
  lemma ArrFromBigOne()
    ensures ArrFromBigAsWritten(1) == None
    ensures ArrFromBig(1).Some?
  {
    assert MinimalLE(1) == [1];
  }

  /** A number whose shortest encoding is exactly 384 bytes: its top byte is not zero. */
  predicate FullWidth(v: nat) {
    Pow256(RSA_SIZE - 1) <= v < Pow256(RSA_SIZE)
  }

  /**
    The SIGSTRUCT numbers packed from the signature `s`, modulus `m`,
    exponent `e` and auxiliaries, in field order, each through the
    zero-padded `ArrFromBig`; any of them too wide for its field panics.
  */
  function Pack<E>(s: nat, m: nat, e: nat, q1: nat, q2: nat): (r: Result<SigData, Error<E>>)
    ensures r.Success? <==> s < Pow256(RSA_SIZE) && m < Pow256(RSA_SIZE) && e < 0x1_0000_0000
                            && q1 < Pow256(RSA_SIZE) && q2 < Pow256(RSA_SIZE)
    ensures r.Success? ==>
      SigDataValid(r.value) && r.value.exponent == e
      && FromLE(r.value.signature) == s && FromLE(r.value.modulus) == m
      && FromLE(r.value.q1) == q1 && FromLE(r.value.q2) == q2
    ensures r.Failure? ==> r.error == Panic
  {
    var sa, ma, q1a, q2a := ArrFromBig(s), ArrFromBig(m), ArrFromBig(q1), ArrFromBig(q2);
    if sa.Some? && ma.Some? && e < 0x1_0000_0000 && q1a.Some? && q2a.Some? then
      Success(SigData(sa.value, ma.value, e, q1a.value, q2a.value))
    else Failure(Panic)
  }

  /**
    The packing as the code performs it, each number through the as-written
    `arr_from_big`: it panics unless every RSA number is full width, and
    otherwise packs what `Pack` packs.
  */
  function PackAsWritten<E>(s: nat, m: nat, e: nat, q1: nat, q2: nat): (r: Result<SigData, Error<E>>)
    ensures r.Success? <==> FullWidth(s) && FullWidth(m) && e < 0x1_0000_0000 && FullWidth(q1) && FullWidth(q2)
    ensures r.Success? ==> r == Pack(s, m, e, q1, q2)
    ensures r.Failure? ==> r.error == Panic
  {
    ArrFromBigAsWrittenPanics(s);
    ArrFromBigAsWrittenPanics(m);
    ArrFromBigAsWrittenPanics(q1);
    ArrFromBigAsWrittenPanics(q2);
    var sa, ma, q1a, q2a := ArrFromBigAsWritten(s), ArrFromBigAsWritten(m), ArrFromBigAsWritten(q1), ArrFromBigAsWritten(q2);
    if sa.Some? && ma.Some? && e < 0x1_0000_0000 && q1a.Some? && q2a.Some? then
      Success(SigData(sa.value, ma.value, e, q1a.value, q2a.value))
    else Failure(Panic)
  }

  /**
    `RS256PrivateKey::sign`: signs SHA-256 of `author ∥ body` with PKCS#1
    v1.5, reads the 384-byte signature big-endian as `s`, and derives
    `q1 = s² / m` and `q2 = s·(s² mod m) / m` for the modulus `m`.
  */
  function Sign<E>(k: Rs256Key, author: seq<byte>, body: seq<byte>,
                   sha256: seq<byte> -> seq<byte>, pkcs1: (RsaKey, seq<byte>) -> Result<seq<byte>, E>): (r: Result<SigData, Error<E>>)
    ensures var raw := pkcs1(k.key, sha256(author + body));
      (raw.Failure? ==> r == Failure(Library(raw.error)))
      && (raw.Success? && |raw.value| != RSA_SIZE ==> r == Failure(Panic))
      && (r.Success? ==>
            raw.Success? && |raw.value| == RSA_SIZE && SigDataValid(r.value)
            && FromLE(r.value.signature) == FromBE(raw.value)
            && FromLE(r.value.modulus) == k.key.n && r.value.exponent == k.key.e)
  {
    match pkcs1(k.key, MessageHash(author, body, sha256))
    case Failure(e) => Failure(Library(e))
    case Success(sig) =>
      if |sig| != RSA_SIZE then Failure(Panic)
      else
        var s, m := FromBE(sig), k.key.n;
        if m == 0 then Failure(Panic)
        else
          var q1, qr := (s * s) / m, (s * s) % m;
          var q2 := (s * qr) / m;
          Pack(s, m, k.key.e, q1, q2)
  }

  /**
    `RS256PrivateKey::sign` as written: `Sign` with the numbers packed
    through the as-written `arr_from_big`, so a result only ever holds
    full-width numbers.
  */
  function SignAsWritten<E>(k: Rs256Key, author: seq<byte>, body: seq<byte>,
                            sha256: seq<byte> -> seq<byte>, pkcs1: (RsaKey, seq<byte>) -> Result<seq<byte>, E>): (r: Result<SigData, Error<E>>)
    ensures var raw := pkcs1(k.key, sha256(author + body));
      (raw.Failure? ==> r == Failure(Library(raw.error)))
      && (raw.Success? && |raw.value| != RSA_SIZE ==> r == Failure(Panic))
      && (r.Success? ==>
            raw.Success? && |raw.value| == RSA_SIZE && SigDataValid(r.value)
            && FullWidth(FromBE(raw.value)) && FullWidth(k.key.n)
            && FromLE(r.value.signature) == FromBE(raw.value)
            && FromLE(r.value.modulus) == k.key.n && r.value.exponent == k.key.e)
  {
    match pkcs1(k.key, MessageHash(author, body, sha256))
    case Failure(e) => Failure(Library(e))
    case Success(sig) =>
      if |sig| != RSA_SIZE then Failure(Panic)
      else
        var s, m := FromBE(sig), k.key.n;
        if m == 0 then Failure(Panic)
        else
          var q1, qr := (s * s) / m, (s * s) % m;
          var q2 := (s * qr) / m;
          PackAsWritten(s, m, k.key.e, q1, q2)
  }

  /** `a < b·m` bounds the quotient `a / m` by `b`. */
  lemma QuotientBelow(a: nat, b: nat, m: nat)
    requires 0 < m && a < b * m
    ensures a / m < b
  {
    assert a / m * m <= a;
  }

  /**
    The auxiliaries: `q1·m + (s² mod m) = s²` with `s² mod m < m`, and for
    a signature below the modulus both auxiliaries are at most `s`, and
    below it when `s` is positive.
  */
  lemma Auxiliaries(s: nat, m: nat)
    requires 0 < m
    ensures (s * s) / m * m + (s * s) % m == s * s && (s * s) % m < m
    ensures s < m ==> (s * s) / m <= s && (s * ((s * s) % m)) / m <= s
    ensures 0 < s < m ==> (s * s) / m < s && (s * ((s * s) % m)) / m < s
  {
    var sq := s * s;
    DivMod(sq, m);
    if s == 0 {
      assert sq == 0 && s * (sq % m) == 0;
    } else if s < m {
      var qr := sq % m;
      ProductBelow(s, s, m);
      QuotientBelow(sq, s, m);
      ProductBelow(s, qr, m);
      QuotientBelow(s * qr, s, m);
    }
  }

  lemma DivMod(a: nat, m: nat)
    requires 0 < m
    ensures a / m * m + a % m == a && a % m < m
  {
  }

  lemma ProductBelow(a: nat, b: nat, m: nat)
    requires 0 < a && b < m
    ensures a * b < a * m
  {
  }

  /** Past the signing primitive, `sign` is the packing of the numbers it derives. */
  lemma SignPacks<E>(k: Rs256Key, author: seq<byte>, body: seq<byte>,
                     sha256: seq<byte> -> seq<byte>, pkcs1: (RsaKey, seq<byte>) -> Result<seq<byte>, E>, sig: seq<byte>)
    requires 0 < k.key.n
    requires pkcs1(k.key, sha256(author + body)) == Success(sig) && |sig| == RSA_SIZE
    ensures var s, m := FromBE(sig), k.key.n;
      Sign(k, author, body, sha256, pkcs1) == Pack(s, m, k.key.e, (s * s) / m, (s * ((s * s) % m)) / m)
  {
    assert MessageHash(author, body, sha256) == sha256(author + body);
  }

  /**
    With a key `new` accepted, a public exponent that fits a u32 and a
    384-byte signature below the modulus, signing succeeds and stores the
    exact numbers: the signature read big-endian, the modulus, the
    exponent, `q1 = s² / m` and `q2 = s·(s² mod m) / m`.
  */
  lemma SignSucceeds<E>(k: Rs256Key, author: seq<byte>, body: seq<byte>,
                        sha256: seq<byte> -> seq<byte>, pkcs1: (RsaKey, seq<byte>) -> Result<seq<byte>, E>, sig: seq<byte>)
    requires NewKey<E>(k.key).Success? && 0 < k.key.n && k.key.e < 0x1_0000_0000
    requires pkcs1(k.key, sha256(author + body)) == Success(sig) && |sig| == RSA_SIZE
    requires FromBE(sig) < k.key.n
    ensures var r := Sign(k, author, body, sha256, pkcs1);
      var s, m := FromBE(sig), k.key.n;
      r.Success? && SigDataValid(r.value)
      && FromLE(r.value.signature) == s && FromLE(r.value.modulus) == m && r.value.exponent == k.key.e
      && FromLE(r.value.q1) == (s * s) / m && FromLE(r.value.q2) == (s * ((s * s) % m)) / m
  {
    var s, m := FromBE(sig), k.key.n;
    SignPacks(k, author, body, sha256, pkcs1, sig);
    Auxiliaries(s, m);
  }

  /**
    The code as written and the corrected `Sign` agree wherever the code
    returns, and they differ only by its panic: on the inputs of
    `SignSucceeds` the code panics exactly when the signature, the modulus
    or an auxiliary is below 256^383.
  */
  lemma SignAsWrittenPanics<E>(k: Rs256Key, author: seq<byte>, body: seq<byte>,
                               sha256: seq<byte> -> seq<byte>, pkcs1: (RsaKey, seq<byte>) -> Result<seq<byte>, E>, sig: seq<byte>)
    requires NewKey<E>(k.key).Success? && 0 < k.key.n && k.key.e < 0x1_0000_0000
    requires pkcs1(k.key, sha256(author + body)) == Success(sig) && |sig| == RSA_SIZE
    requires FromBE(sig) < k.key.n
    ensures var w := SignAsWritten(k, author, body, sha256, pkcs1);
      var s, m := FromBE(sig), k.key.n;
      (w.Success? <==> Pow256(RSA_SIZE - 1) <= s && Pow256(RSA_SIZE - 1) <= m
                       && Pow256(RSA_SIZE - 1) <= (s * s) / m && Pow256(RSA_SIZE - 1) <= (s * ((s * s) % m)) / m)
      && (w.Success? ==> w == Sign(k, author, body, sha256, pkcs1))
      && (w.Failure? ==> w == Failure(Panic) && Sign(k, author, body, sha256, pkcs1).Success?)
  {
    var s, m := FromBE(sig), k.key.n;
    SignSucceeds(k, author, body, sha256, pkcs1, sig);
    assert MessageHash(author, body, sha256) == sha256(author + body);
    Auxiliaries(s, m);
  }

  /**
    The smallest witness: with a key `new` accepts, a signature whose value
    is 1 makes the code panic although the corrected `Sign` succeeds.
  */
  lemma SignOfOne<E>(k: Rs256Key, author: seq<byte>, body: seq<byte>,
                     sha256: seq<byte> -> seq<byte>, pkcs1: (RsaKey, seq<byte>) -> Result<seq<byte>, E>, sig: seq<byte>)
    requires NewKey<E>(k.key).Success? && 1 < k.key.n && k.key.e < 0x1_0000_0000
    requires pkcs1(k.key, sha256(author + body)) == Success(sig) && |sig| == RSA_SIZE && FromBE(sig) == 1
    ensures SignAsWritten(k, author, body, sha256, pkcs1) == Failure(Panic)
    ensures Sign(k, author, body, sha256, pkcs1).Success?
  {
    SignAsWrittenPanics(k, author, body, sha256, pkcs1, sig);
  }
}
