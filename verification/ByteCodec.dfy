/** Little-endian integers and length-prefixed byte strings, written and read back.

  Reading is modelled on the bytes that are left; each reader is described by one equivalence: it
  yields a value and a rest exactly when the input is the value's encoding followed by the rest.
  */
module ByteCodec {
  import opened Wrappers

  type Byte = x: int | 0 <= x < 256
  type Bytes = seq<Byte>

  /** `None` is the null string, which is not the empty one. */
  type ByteString = Option<Bytes>

  datatype Read<+T> = Fail | Got(value: T, rest: Bytes)

  const TWO32 := 0x1_0000_0000
  const MAX_I32 := 0x7FFF_FFFF
  const MAX_I64 := 0x7FFF_FFFF_FFFF_FFFF
  const TWO64 := 0x1_0000_0000_0000_0000

  // ---- Integers ------------------------------------------------------------------------------

  function Power(k: nat): nat {
    if k == 0 then 1 else 256 * Power(k - 1)
  }

  /** The `k` lowest bytes of a number, lowest first. */
  function Le(n: nat, k: nat): (s: Bytes)
    ensures |s| == k
    decreases k
  {
    if k == 0 then [] else [n % 256] + Le(n / 256, k - 1)
  }

  function Unsigned(s: Bytes): (n: nat)
    ensures n < Power(|s|)
  {
    if s == [] then 0
    else
      var low: int := s[0];
      low + 256 * Unsigned(s[1..])
  }

  /** A number that fits is read from exactly the bytes it is written as. */
  lemma {:induction false} LeInverse(n: nat, s: Bytes)
    requires n < Power(|s|)
    ensures Unsigned(s) == n <==> s == Le(n, |s|)
    decreases |s|
  {
    if s != [] {
      LeInverse(n / 256, s[1..]);
      assert s == [s[0]] + s[1..];
    }
  }

  lemma Powers()
    ensures Power(2) == 0x1_0000 && Power(4) == TWO32 && Power(8) == TWO64
  {
    assert Power(1) == 0x100 && Power(3) == 0x100_0000;
    assert Power(5) == 256 * TWO32 && Power(6) == 256 * Power(5) && Power(7) == 256 * Power(6);
  }

  function Le16(n: int): (s: Bytes)
    requires 0 <= n < 0x1_0000
    ensures |s| == 2
  {
    Le(n, 2)
  }

  /** Two bytes that make up a number, the lowest first. */
  predicate MakesU16(s: Bytes, n: int) {
    |s| == 2 && var a: int, b: int := s[0], s[1]; n == a + 0x100 * b
  }

  lemma TwoBytes(n: nat)
    requires n < 0x1_0000
    ensures MakesU16(Le16(n), n)
  {
    assert Le(n / 0x100, 1)[0] == n / 0x100 % 0x100;
  }

  function U16(s: Bytes): (n: int)
    requires |s| == 2
    ensures 0 <= n < 0x1_0000
  {
    Powers();
    Unsigned(s)
  }

  /** Two's complement, as the casts between signed and unsigned integers have it. */
  function LeI32(n: int): (s: Bytes)
    requires -TWO32 / 2 <= n <= MAX_I32
    ensures |s| == 4
  {
    Le(if n < 0 then n + TWO32 else n, 4)
  }

  predicate MakesU32(s: Bytes, n: int) {
    |s| == 4 && var a: int, b: int, c: int, d: int := s[0], s[1], s[2], s[3];
    n == a + 0x100 * b + 0x1_0000 * c + 0x100_0000 * d
  }

  lemma UnsignedFrom(s: Bytes, i: nat)
    requires i < |s|
    ensures var low: int := s[i]; Unsigned(s[i..]) == low + 256 * Unsigned(s[i + 1..])
  {
    assert s[i..][1..] == s[i + 1..];
  }

  /** What the first four bytes make up, and the rest from there. */
  lemma FourAreUnsigned(s: Bytes) returns (n: nat)
    requires |s| >= 4
    ensures n < TWO32 && MakesU32(s[..4], n) && Unsigned(s) == n + TWO32 * Unsigned(s[4..])
  {
    hide Unsigned;
    var a: int, b: int, c: int, d: int := s[0], s[1], s[2], s[3];
    n := a + 0x100 * b + 0x1_0000 * c + 0x100_0000 * d;
    assert s[0..] == s;
    UnsignedFrom(s, 0);
    UnsignedFrom(s, 1);
    UnsignedFrom(s, 2);
    UnsignedFrom(s, 3);
  }

  lemma FourBytes(n: nat)
    requires n < TWO32
    ensures MakesU32(Le(n, 4), n)
  {
    Powers();
    LeInverse(n, Le(n, 4));
    hide Le, Power;
    var s := Le(n, 4);
    var m := FourAreUnsigned(s);
    assert Unsigned(s[4..]) == 0 && s[..4] == s;
  }

  /** Eight bytes: the four of the low half, then the four of the high half. */
  lemma EightBytes(n: nat) returns (low: nat, high: nat)
    requires n < TWO64
    ensures low < TWO32 && high < TWO32 && n == low + TWO32 * high
    ensures MakesU32(Le(n, 8)[..4], low) && MakesU32(Le(n, 8)[4..], high)
  {
    Powers();
    LeInverse(n, Le(n, 8));
    hide Le, Power;
    var s := Le(n, 8);
    low := FourAreUnsigned(s);
    high := FourAreUnsigned(s[4..]);
    assert Unsigned(s[4..][4..]) == 0 && s[4..][..4] == s[4..];
  }

  function I32(s: Bytes): (n: int)
    requires |s| == 4
    ensures -TWO32 / 2 <= n <= MAX_I32
  {
    Powers();
    if Unsigned(s) > MAX_I32 then Unsigned(s) - TWO32 else Unsigned(s)
  }

  function LeI64(n: int): (s: Bytes)
    requires -TWO64 / 2 <= n <= MAX_I64
    ensures |s| == 8
  {
    Le(if n < 0 then n + TWO64 else n, 8)
  }

  function I64(s: Bytes): (n: int)
    requires |s| == 8
    ensures -TWO64 / 2 <= n <= MAX_I64
  {
    Powers();
    if Unsigned(s) > MAX_I64 then Unsigned(s) - TWO64 else Unsigned(s)
  }

  lemma Le16Inverse(n: int, s: Bytes)
    requires 0 <= n < 0x1_0000 && |s| == 2
    ensures U16(s) == n <==> s == Le16(n)
  {
    hide Le, Unsigned, Power;
    Powers();
    LeInverse(n, s);
  }

  lemma LeI32Inverse(n: int, s: Bytes)
    requires -TWO32 / 2 <= n <= MAX_I32 && |s| == 4
    ensures I32(s) == n <==> s == LeI32(n)
  {
    hide Le, Unsigned, Power;
    Powers();
    LeInverse(if n < 0 then n + TWO32 else n, s);
  }

  lemma LeI64Inverse(n: int, s: Bytes)
    requires -TWO64 / 2 <= n <= MAX_I64 && |s| == 8
    ensures I64(s) == n <==> s == LeI64(n)
  {
    hide Le, Unsigned, Power;
    Powers();
    LeInverse(if n < 0 then n + TWO64 else n, s);
  }

  // ---- Reading -------------------------------------------------------------------------------

  function ReadBytes(s: Bytes, n: nat): Read<Bytes> {
    if |s| < n then Fail else Got(s[..n], s[n..])
  }

  lemma ReadBytesIff(s: Bytes, n: nat, v: Bytes, rest: Bytes)
    ensures ReadBytes(s, n) == Got(v, rest) <==> |v| == n && s == v + rest
  {
    if |s| >= n {
      assert s == s[..n] + s[n..];
    }
    if |v| == n && s == v + rest {
      assert s[..n] == v && s[n..] == rest;
    }
  }

  function ReadU16(s: Bytes): Read<int> {
    if |s| < 2 then Fail else Got(U16(s[..2]), s[2..])
  }

  function ReadI32(s: Bytes): Read<int> {
    if |s| < 4 then Fail else Got(I32(s[..4]), s[4..])
  }

  function ReadI64(s: Bytes): Read<int> {
    if |s| < 8 then Fail else Got(I64(s[..8]), s[8..])
  }

  lemma ReadU16Iff(s: Bytes, n: int, rest: Bytes)
    ensures ReadU16(s) == Got(n, rest) <==> 0 <= n < 0x1_0000 && s == Le16(n) + rest
  {
    hide Le16, U16;
    if |s| >= 2 {
      assert s == s[..2] + s[2..];
      if 0 <= n < 0x1_0000 {
        Le16Inverse(n, s[..2]);
        assert s == Le16(n) + rest ==> s[..2] == Le16(n) && s[2..] == rest;
      }
    }
  }

  lemma ReadI32Iff(s: Bytes, n: int, rest: Bytes)
    ensures ReadI32(s) == Got(n, rest) <==> -TWO32 / 2 <= n <= MAX_I32 && s == LeI32(n) + rest
  {
    hide LeI32, I32;
    if |s| >= 4 {
      assert s == s[..4] + s[4..];
      if -TWO32 / 2 <= n <= MAX_I32 {
        LeI32Inverse(n, s[..4]);
        assert s == LeI32(n) + rest ==> s[..4] == LeI32(n) && s[4..] == rest;
      }
    }
  }

  lemma ReadI64Iff(s: Bytes, n: int, rest: Bytes)
    ensures ReadI64(s) == Got(n, rest) <==> -TWO64 / 2 <= n <= MAX_I64 && s == LeI64(n) + rest
  {
    hide LeI64, I64;
    if |s| >= 8 {
      assert s == s[..8] + s[8..];
      if -TWO64 / 2 <= n <= MAX_I64 {
        LeI64Inverse(n, s[..8]);
        assert s == LeI64(n) + rest ==> s[..8] == LeI64(n) && s[8..] == rest;
      }
    }
  }

  // ---- Byte strings --------------------------------------------------------------------------

  /** The length is written as `len as i32`, which wraps. */
  function AsI32(n: nat): (r: int)
    ensures -TWO32 / 2 <= r <= MAX_I32
  {
    var m := n % TWO32;
    if m > MAX_I32 then m - TWO32 else m
  }

  function EncodeByteString(v: ByteString): Bytes {
    match v
    case None => LeI32(-1)
    case Some(bytes) => LeI32(AsI32(|bytes|)) + bytes
  }

  /** The length a string contributes besides its four bytes of prefix. */
  function Content(v: ByteString): Bytes {
    if v.Some? then v.value else []
  }

  function ReadByteString(s: Bytes, limit: nat): Read<ByteString> {
    match ReadI32(s)
    case Fail => Fail
    case Got(n, rest) =>
      if n == -1 then Got(None, rest)
      else if n < -1 || n > limit then Fail
      else
        match ReadBytes(rest, n)
        case Fail => Fail
        case Got(bytes, after) => Got(Some(bytes), after)
  }

  predicate Readable(v: ByteString, limit: nat) {
    v.Some? ==> |v.value| <= limit && |v.value| <= MAX_I32
  }

  lemma ReadByteStringIff(s: Bytes, limit: nat, v: ByteString, rest: Bytes)
    ensures ReadByteString(s, limit) == Got(v, rest) <==> Readable(v, limit) && s == EncodeByteString(v) + rest
  {
    hide LeI32, ReadI32, ReadBytes;
    if Readable(v, limit) && s == EncodeByteString(v) + rest {
      match v {
        case None =>
          ReadI32Iff(s, -1, rest);
        case Some(bytes) =>
          assert s == LeI32(|bytes|) + (bytes + rest);
          ReadI32Iff(s, |bytes|, bytes + rest);
          ReadBytesIff(bytes + rest, |bytes|, bytes, rest);
      }
    }
    if ReadByteString(s, limit) == Got(v, rest) {
      var first := ReadI32(s);
      ReadI32Iff(s, first.value, first.rest);
      if v.Some? {
        ReadBytesIff(first.rest, first.value, v.value, rest);
        assert s == EncodeByteString(v) + rest;
      }
    }
  }
}
