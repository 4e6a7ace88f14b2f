/** The pseudo-random expansion P_hash of section 5 of RFC 5246.

  The message authentication code is a parameter: a function of key and message whose outputs all have
  one length, 20 bytes for SHA-1 and 32 for SHA-256.
  */
module PHash {
  type Bytes = seq<bv8>

  type Mac = (Bytes, Bytes) -> Bytes

  ghost predicate FixedLength(mac: Mac, n: nat) {
    n > 0 && forall key, message :: |mac(key, message)| == n
  }

  /** A(i): the seed, authenticated `i` times. */
  function A(mac: Mac, secret: Bytes, seed: Bytes, i: nat): Bytes {
    if i == 0 then seed else mac(secret, A(mac, secret, seed, i - 1))
  }

  function Block(mac: Mac, secret: Bytes, seed: Bytes, i: nat): Bytes {
    mac(secret, A(mac, secret, seed, i) + seed)
  }

  /** The first `k` blocks of the stream, which start with the one of A(1). */
  function Stream(mac: Mac, secret: Bytes, seed: Bytes, k: nat): Bytes {
    if k == 0 then [] else Stream(mac, secret, seed, k - 1) + Block(mac, secret, seed, k)
  }

  lemma {:induction false} StreamGrows(mac: Mac, secret: Bytes, seed: Bytes, k: nat, m: nat)
    requires k <= m
    ensures Stream(mac, secret, seed, k) <= Stream(mac, secret, seed, m)
    decreases m
  {
    hide Block;
    if k < m {
      StreamGrows(mac, secret, seed, k, m - 1);
    }
  }

  lemma {:induction false} StreamLength(mac: Mac, n: nat, secret: Bytes, seed: Bytes, k: nat)
    requires FixedLength(mac, n)
    ensures |Stream(mac, secret, seed, k)| == k * n
  {
    if k > 0 {
      StreamLength(mac, n, secret, seed, k - 1);
    }
  }

  /** The bytes asked for are the start of the stream, however far that is computed. */
  ghost predicate IsStart(mac: Mac, secret: Bytes, seed: Bytes, r: Bytes) {
    && (exists k: nat :: r <= Stream(mac, secret, seed, k))
    && forall k: nat :: |r| <= |Stream(mac, secret, seed, k)| ==> r <= Stream(mac, secret, seed, k)
  }

  lemma StartOfOneIsStart(mac: Mac, secret: Bytes, seed: Bytes, r: Bytes, m: nat)
    requires r <= Stream(mac, secret, seed, m)
    ensures IsStart(mac, secret, seed, r)
  {
    hide Stream;
    forall k: nat | |r| <= |Stream(mac, secret, seed, k)|
      ensures r <= Stream(mac, secret, seed, k)
    {
      if k <= m {
        StreamGrows(mac, secret, seed, k, m);
      } else {
        StreamGrows(mac, secret, seed, m, k);
      }
    }
  }

  method Expand(mac: Mac, ghost n: nat, secret: Bytes, seed: Bytes, length: nat) returns (result: Bytes)
    requires FixedLength(mac, n)
    ensures |result| == length && IsStart(mac, secret, seed, result)
  {
    hide IsStart;
    result := [];
    var aLast := seed;
    ghost var k := 0;
    while |result| < length
      invariant result == Stream(mac, secret, seed, k) && aLast == A(mac, secret, seed, k)
      decreases length - |result|
    {
      var aNext := mac(secret, aLast);
      var bytes := mac(secret, aNext + seed);
      result := result + bytes;
      aLast := aNext;
      k := k + 1;
    }
    result := result[..length];
    StartOfOneIsStart(mac, secret, seed, result, k);
  }

  /** Two expansions of the same inputs: the shorter is a prefix of the longer, so there is exactly one
    for each length. */
  lemma {:induction false} ShorterIsPrefix(mac: Mac, secret: Bytes, seed: Bytes, r: Bytes, s: Bytes)
    requires IsStart(mac, secret, seed, r) && IsStart(mac, secret, seed, s) && |r| <= |s|
    ensures r <= s
  {
    hide Stream;
    var k: nat :| s <= Stream(mac, secret, seed, k);
    assert r <= Stream(mac, secret, seed, k);
  }

  /** Byte for byte: what lies `t` into block `i + 1`, counted from the end of the first `i` blocks. */
  lemma ByteAt(mac: Mac, n: nat, secret: Bytes, seed: Bytes, r: Bytes, i: nat, t: nat)
    requires FixedLength(mac, n) && IsStart(mac, secret, seed, r) && t < n && i * n + t < |r|
    ensures r[i * n + t] == Block(mac, secret, seed, i + 1)[t]
  {
    StreamLength(mac, n, secret, seed, i);
    var k: nat :| r <= Stream(mac, secret, seed, k);
    if k <= i {
      StreamGrows(mac, secret, seed, k, i);
    }
    StreamGrows(mac, secret, seed, i + 1, if k <= i then i + 1 else k);
  }

  /** The first two blocks, written out. */
  lemma FirstBlocks(mac: Mac, n: nat, secret: Bytes, seed: Bytes, r: Bytes)
    requires FixedLength(mac, n) && IsStart(mac, secret, seed, r) && |r| == 2 * n
    ensures
      var a := mac(secret, seed);
      r == mac(secret, a + seed) + mac(secret, mac(secret, a) + seed)
  {
    StreamLength(mac, n, secret, seed, 2);
    assert Stream(mac, secret, seed, 1) == Block(mac, secret, seed, 1);
    assert A(mac, secret, seed, 1) == mac(secret, seed);
    assert A(mac, secret, seed, 2) == mac(secret, A(mac, secret, seed, 1));
    assert Stream(mac, secret, seed, 2) == Stream(mac, secret, seed, 1) + Block(mac, secret, seed, 2);
  }
}
