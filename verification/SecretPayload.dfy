/** The plaintext of an encrypted secret (section 6.8.3 of OPC 10000-6): nonce and secret as byte
  strings, padding up to whole cipher blocks, and the size of the padding.
  */
module SecretPayload {
  import opened ByteCodec
  import opened Wrappers

  datatype Failure = BadInvalidArgument

  // ---- Building ------------------------------------------------------------------------------

  function DataLength(nonce: Bytes, secret: Bytes): nat {
    4 + |nonce| + 4 + |secret| + 2
  }

  /** Enough to fill the last block, and a block more when the secret is too short to hide in it. */
  function PadSize(block: nat, nonce: Bytes, secret: Bytes): nat
    requires block > 0
  {
    var d := DataLength(nonce, secret);
    var fill := if d % block == 0 then 0 else block - d % block;
    if fill + |secret| < block then fill + block else fill
  }

  /** The size is written in 16 bits, its low byte being the byte that is repeated. */
  function Padding(size: nat): Bytes {
    seq(size, _ => size % 256) + Le16(size % 0x1_0000)
  }

  function Plaintext(nonce: ByteString, secret: ByteString, size: nat): Bytes {
    EncodeByteString(nonce) + EncodeByteString(secret) + Padding(size)
  }

  method BuildSecretPayload(block: nat, nonce: Bytes, secret: Bytes) returns (r: Result<Bytes, Failure>)
    ensures r.Err? <==> block == 0 || |nonce| > MAX_I32 || |secret| > MAX_I32
    ensures r.Ok? ==> r.value == Plaintext(Some(nonce), Some(secret), PadSize(block, nonce, secret))
  {
    if block == 0 || |nonce| > MAX_I32 || |secret| > MAX_I32 {
      return Err(BadInvalidArgument);
    }
    hide LeI32, Le16, PadSize, Plaintext;
    var pad := ChoosePadding(block, nonce, secret);
    var plaintext := LeI32(|nonce|) + nonce;
    plaintext := plaintext + LeI32(|secret|) + secret;
    plaintext := plaintext + seq(pad, _ => pad % 256);
    plaintext := plaintext + Le16(pad % 0x1_0000);
    PlaintextWritten(nonce, secret, pad);
    PlaintextLength(nonce, secret, pad);
    PaddingFits(block, nonce, secret);
    if |plaintext| != DataLength(nonce, secret) + pad || |plaintext| % block != 0 {
      assert false;
      return Err(BadInvalidArgument);
    }
    r := Ok(plaintext);
  }

  method ChoosePadding(block: nat, nonce: Bytes, secret: Bytes) returns (pad: nat)
    requires block > 0
    ensures pad == PadSize(block, nonce, secret)
  {
    var dataLength := 4 + |nonce| + 4 + |secret| + 2;
    pad := if dataLength % block == 0 then 0 else block - dataLength % block;
    if pad + |secret| < block {
      pad := pad + block;
    }
  }

  lemma PlaintextWritten(nonce: Bytes, secret: Bytes, size: nat)
    requires |nonce| <= MAX_I32 && |secret| <= MAX_I32
    ensures Plaintext(Some(nonce), Some(secret), size)
      == LeI32(|nonce|) + nonce + LeI32(|secret|) + secret + seq(size, _ => size % 256) + Le16(size % 0x1_0000)
  {
    hide LeI32, Le16;
  }

  lemma PlaintextLength(nonce: Bytes, secret: Bytes, size: nat)
    ensures |Plaintext(Some(nonce), Some(secret), size)| == DataLength(nonce, secret) + size
  {
    hide LeI32, Le16;
  }

  /** The plaintext piece by piece: lengths and size lowest byte first, the padding made of the size's low
    byte. */
  lemma PlaintextLayout(nonce: Bytes, secret: Bytes, size: nat)
    returns (n: Bytes, m: Bytes, padding: Bytes, tail: Bytes)
    requires |nonce| <= MAX_I32 && |secret| <= MAX_I32
    ensures Plaintext(Some(nonce), Some(secret), size) == n + nonce + m + secret + padding + tail
    ensures MakesU32(n, |nonce|) && MakesU32(m, |secret|)
    ensures |padding| == size && (forall b | b in padding :: b == size % 0x100) && MakesU16(tail, size % 0x1_0000)
  {
    PlaintextWritten(nonce, secret, size);
    FourBytes(|nonce|);
    FourBytes(|secret|);
    assert LeI32(|nonce|) == Le(|nonce|, 4) && LeI32(|secret|) == Le(|secret|, 4);
    TwoBytes(size % 0x1_0000);
    hide LeI32, Le16, Plaintext;
    n, m, padding, tail := LeI32(|nonce|), LeI32(|secret|), seq(size, _ => size % 256), Le16(size % 0x1_0000);
  }

  /** The result is whole blocks; padding and secret together fill at least one; the padding stays below
    two. */
  lemma PaddingFits(block: nat, nonce: Bytes, secret: Bytes)
    requires block > 0
    ensures
      var size := PadSize(block, nonce, secret);
      && (DataLength(nonce, secret) + size) % block == 0
      && size + |secret| >= block
      && size < 2 * block
  {
    var d := DataLength(nonce, secret);
    FilledUp(d, block);
    var fill := if d % block == 0 then 0 else block - d % block;
    MultipleHasNoRest((d + fill) / block + 1, block);
  }

  /** No shorter padding would do: it is the least that gives whole blocks and fills, with the secret, at
    least one. */
  lemma PaddingIsLeast(block: nat, nonce: Bytes, secret: Bytes, n: nat)
    requires block > 0 && (DataLength(nonce, secret) + n) % block == 0 && n + |secret| >= block
    ensures PadSize(block, nonce, secret) <= n
  {
    var d := DataLength(nonce, secret);
    var fill := if d % block == 0 then 0 else block - d % block;
    FilledUp(d, block);
    MultiplesApart(d + fill, d + n, block);
    assert fill < block;
  }

  /** Different multiples lie at least a block apart. */
  lemma MultiplesApart(x: nat, y: nat, block: nat)
    requires block > 0 && x % block == 0 && y % block == 0
    ensures x < y ==> x + block <= y
    ensures y < x ==> y + block <= x
  {
    var d := x / block - y / block;
    assert x == (x / block) * block && y == (y / block) * block;
    assert d * block == x - y;
    ProductBounds(d, block);
  }

  /** Filling the last block gives a multiple, and a block more gives the next one. */
  lemma FilledUp(d: nat, block: nat)
    requires block > 0
    ensures
      var fill := if d % block == 0 then 0 else block - d % block;
      (d + fill) % block == 0 && d + fill + block == ((d + fill) / block + 1) * block
  {
    var q := if d % block == 0 then d / block else d / block + 1;
    var fill := if d % block == 0 then 0 else block - d % block;
    assert d == (d / block) * block + d % block;
    assert (d / block + 1) * block == (d / block) * block + block;
    assert d + fill == q * block;
    MultipleHasNoRest(q, block);
    var p := (d + fill) / block;
    assert (p + 1) * block == p * block + block;
  }

  lemma MultipleHasNoRest(q: nat, block: nat)
    requires block > 0
    ensures (q * block) % block == 0
  {
    var x := q * block;
    var d := q - x / block;
    assert d * block == x % block;
    ProductBounds(d, block);
  }

  lemma ProductBounds(d: int, block: nat)
    ensures d >= 1 ==> d * block >= block
    ensures d <= -1 ==> d * block + block <= 0
  {
    assert (d + 1) * block == d * block + block;
  }

  // ---- Parsing -------------------------------------------------------------------------------

  predicate AllAre(s: Bytes, b: int) {
    forall x | x in s :: x == b
  }

  function Parse(p: Bytes): Result<(ByteString, ByteString), Failure> {
    if |p| < 2 then Err(BadInvalidArgument)
    else
      var sizeAt := |p| - 2;
      var size := U16(p[sizeAt..]);
      if sizeAt < size then Err(BadInvalidArgument)
      else
        var end := sizeAt - size;
        if !AllAre(p[end..sizeAt], size % 256) then Err(BadInvalidArgument) else ParseStrings(p[..end])
  }

  function ParseStrings(payload: Bytes): Result<(ByteString, ByteString), Failure> {
    match ReadByteString(payload, MAX_I32)
    case Fail => Err(BadInvalidArgument)
    case Got(nonce, rest) =>
      match ReadByteString(rest, MAX_I32)
      case Fail => Err(BadInvalidArgument)
      case Got(secret, after) => if after == [] then Ok((nonce, secret)) else Err(BadInvalidArgument)
  }

  /** One byte string read at an offset, which moves past it. */
  method ParsePayloadByteString(payload: Bytes, offset: nat) returns (r: Result<ByteString, Failure>, next: nat)
    requires offset <= |payload|
    ensures next <= |payload|
    ensures
      match ReadByteString(payload[offset..], MAX_I32)
      case Fail => r.Err?
      case Got(v, rest) => r == Ok(v) && payload[next..] == rest
  {
    hide I32;
    next := offset;
    if |payload| < offset + 4 {
      return Err(BadInvalidArgument), next;
    }
    assert payload[offset..][..4] == payload[offset..offset + 4] && payload[offset..][4..] == payload[offset + 4..];
    var n := I32(payload[offset..offset + 4]);
    next := offset + 4;
    if n == -1 {
      return Ok(None), next;
    }
    if n < -1 || |payload| < next + n {
      return Err(BadInvalidArgument), next;
    }
    assert payload[next..][..n] == payload[next..next + n] && payload[next..][n..] == payload[next + n..];
    r := Ok(Some(payload[next..next + n]));
    next := next + n;
  }

  method ParseSecretPayload(p: Bytes) returns (r: Result<(ByteString, ByteString), Failure>)
    ensures r == Parse(p)
  {
    hide ReadByteString, U16;
    if |p| < 2 {
      return Err(BadInvalidArgument);
    }
    var sizeAt := |p| - 2;
    var size := U16(p[sizeAt..]);
    if sizeAt < size {
      return Err(BadInvalidArgument);
    }
    var end := sizeAt - size;
    if !AllAre(p[end..sizeAt], size % 256) {
      return Err(BadInvalidArgument);
    }
    var payload := p[..end];
    assert payload[0..] == payload;
    var nonce, offset := ParsePayloadByteString(payload, 0);
    if nonce.Err? {
      return Err(BadInvalidArgument);
    }
    var secret, last := ParsePayloadByteString(payload, offset);
    if secret.Err? || last != |payload| {
      return Err(BadInvalidArgument);
    }
    r := Ok((nonce.value, secret.value));
  }

  // ---- The two together ------------------------------------------------------------------------

  lemma PaddingIsRead(p: Bytes, size: nat, payload: Bytes)
    requires size < 0x1_0000
    ensures p == payload + Padding(size)
       <==> |p| >= 2 && U16(p[|p| - 2..]) == size && |p| - 2 >= size
            && AllAre(p[|p| - 2 - size..|p| - 2], size % 256) && payload == p[..|p| - 2 - size]
  {
    hide U16, Le16;
    var fill := seq(size, _ => size % 256);
    if p == payload + Padding(size) {
      assert p == payload + fill + Le16(size);
      assert p[|p| - 2..] == Le16(size) && p[|p| - 2 - size..|p| - 2] == fill && payload == p[..|p| - 2 - size];
      Le16Inverse(size, p[|p| - 2..]);
    }
    if && |p| >= 2 && U16(p[|p| - 2..]) == size && |p| - 2 >= size
       && AllAre(p[|p| - 2 - size..|p| - 2], size % 256) && payload == p[..|p| - 2 - size] {
      Le16Inverse(size, p[|p| - 2..]);
      var middle := p[|p| - 2 - size..|p| - 2];
      forall i | 0 <= i < size
        ensures middle[i] == fill[i]
      {
        assert middle[i] in middle;
      }
      assert middle == fill;
      assert p == payload + middle + p[|p| - 2..];
    }
  }

  lemma StringsAreRead(payload: Bytes, nonce: ByteString, secret: ByteString)
    ensures ParseStrings(payload) == Ok((nonce, secret))
       <==> Readable(nonce, MAX_I32) && Readable(secret, MAX_I32) && payload == EncodeByteString(nonce) + EncodeByteString(secret)
  {
    hide ReadByteString, EncodeByteString, Readable;
    var a, b := EncodeByteString(nonce), EncodeByteString(secret);
    ReadByteStringIff(payload, MAX_I32, nonce, b);
    ReadByteStringIff(b, MAX_I32, secret, []);
    assert b + [] == b;
    match ReadByteString(payload, MAX_I32) {
      case Fail =>
      case Got(v, rest) =>
        ReadByteStringIff(payload, MAX_I32, v, rest);
        match ReadByteString(rest, MAX_I32) {
          case Fail =>
          case Got(w, after) =>
            ReadByteStringIff(rest, MAX_I32, w, after);
            assert EncodeByteString(w) + [] == EncodeByteString(w);
        }
    }
  }

  /** What is accepted: exactly two encoded byte strings, uniform padding and its size. */
  lemma AcceptedIffWellFormed(p: Bytes, nonce: ByteString, secret: ByteString)
    ensures Parse(p) == Ok((nonce, secret))
       <==> Readable(nonce, MAX_I32) && Readable(secret, MAX_I32)
            && exists size: nat :: size < 0x1_0000 && p == Plaintext(nonce, secret, size)
  {
    hide EncodeByteString, Readable, Padding, ParseStrings, U16, AllAre;
    var payload := EncodeByteString(nonce) + EncodeByteString(secret);
    if Parse(p) == Ok((nonce, secret)) {
      var size := U16(p[|p| - 2..]);
      StringsAreRead(p[..|p| - 2 - size], nonce, secret);
      PaddingIsRead(p, size, payload);
      assert p == Plaintext(nonce, secret, size);
    }
    if Readable(nonce, MAX_I32) && Readable(secret, MAX_I32) {
      if size: nat :| size < 0x1_0000 && p == Plaintext(nonce, secret, size) {
        PaddingIsRead(p, size, payload);
        StringsAreRead(payload, nonce, secret);
      }
    }
  }

  /** What is built is parsed back exactly when the padding fits its 16-bit size field. */
  lemma RoundTripIffPaddingFits(block: nat, nonce: Bytes, secret: Bytes)
    requires block > 0 && |nonce| <= MAX_I32 && |secret| <= MAX_I32
    ensures
      var size := PadSize(block, nonce, secret);
      Parse(Plaintext(Some(nonce), Some(secret), size)) == Ok((Some(nonce), Some(secret))) <==> size < 0x1_0000
  {
    hide Plaintext, Parse, PadSize, DataLength;
    var size := PadSize(block, nonce, secret);
    var p := Plaintext(Some(nonce), Some(secret), size);
    AcceptedIffWellFormed(p, Some(nonce), Some(secret));
    PlaintextLength(nonce, secret, size);
    forall other: nat | p == Plaintext(Some(nonce), Some(secret), other)
      ensures other == size
    {
      PlaintextLength(nonce, secret, other);
    }
  }

  /** For any block of at most 2^15 bytes, so for every cipher in use, building and parsing are inverse. */
  lemma RoundTrip(block: nat, nonce: Bytes, secret: Bytes)
    requires 0 < block <= 0x8000 && |nonce| <= MAX_I32 && |secret| <= MAX_I32
    ensures Parse(Plaintext(Some(nonce), Some(secret), PadSize(block, nonce, secret))) == Ok((Some(nonce), Some(secret)))
  {
    PaddingFits(block, nonce, secret);
    RoundTripIffPaddingFits(block, nonce, secret);
  }

  /** An input on which they are not: the padding overflows its size field.  It cannot arise from key
    derivation: the block is the length of the initialization vector of AES, which is 16 bytes for
    every curve, and `RoundTrip` covers that.
    */
  lemma WideBlocksDoNotRoundTrip()
    ensures Parse(Plaintext(Some([]), Some([]), PadSize(0x1_0010, [], []))) != Ok((Some([]), Some([])))
  {
    hide Parse, Plaintext;
    RoundTripIffPaddingFits(0x1_0010, [], []);
    assert PadSize(0x1_0010, [], []) == 0x1_0006 + 0x1_0010;
  }
}
