/**
  A message digest as the model sees it: the exact byte stream fed to it.
  SHA-256 itself is not interpreted; `Finish` applies whatever hash
  function the caller supplies to the stream.
*/
module Digest {
  import opened Bytes

  /** A digest in progress, represented by the bytes fed to it so far. */
  datatype Ctx = Ctx(fed: seq<byte>)

  /** `Digest::new`: nothing fed yet. */
  const EMPTY: Ctx := Ctx([])

  /** `Digest::update`: feeds more bytes after those already fed. */
  function Update(c: Ctx, bytes: seq<byte>): Ctx {
    Ctx(c.fed + bytes)
  }

  /** `Digest::chain`: an update that hands the digest back for further use. */
  function Chain(c: Ctx, bytes: seq<byte>): Ctx {
    Update(c, bytes)
  }

  /** `Digest::finish`: the hash of everything fed. */
  function Finish<D>(c: Ctx, hash: seq<byte> -> D): D {
    hash(c.fed)
  }

  /**
    Feeding in pieces is feeding the pieces' concatenation, and what was fed
    before stays a prefix; feeding nothing changes nothing.
  */
  lemma ChainLaws(c: Ctx, a: seq<byte>, b: seq<byte>)
    ensures Chain(c, a) == Update(c, a)
    ensures Chain(Chain(c, a), b) == Chain(c, a + b)
    ensures |Update(c, a).fed| == |c.fed| + |a|
    ensures Update(c, a).fed[..|c.fed|] == c.fed && Update(c, a).fed[|c.fed|..] == a
    ensures Chain(c, []) == c
    ensures Chain(EMPTY, a).fed == a
  {
    assert c.fed + a + b == c.fed + (a + b);
    assert c.fed + [] == c.fed;
  }
}
